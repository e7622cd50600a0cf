/**
 * The fragment of Python's `re` that the pipelines' patterns use: word
 * boundaries `\b`, literal runs, character classes with greedy bounded
 * repetition (`\d{3}`, `\s+`, `[^,\n]*`, `x?`), concatenation, alternation
 * and greedy optional groups, each matched with or without IGNORECASE.
 *
 * `Ends` lists the end positions a match starting at a given position can
 * reach, in the order Python's backtracking matcher tries them, so the first
 * element is the end of the match `re.search` reports. `Accepts` is the
 * plain relational meaning of a pattern; `EndsAccepts` proves the two agree
 * on which ends are possible.
 */
module Regex {
  import opened Base
  import opened PyStr

  datatype CharClass =
    | Digit                              // \d
    | Space                              // \s
    | Letter                             // A-Z and a-z inside [...]
    | AnyOf(chars: string)               // the listed characters
    | NoneOf(chars: string)              // [^...]
    | Union(a: CharClass, b: CharClass)

  predicate InClass(c: char, cls: CharClass) {
    match cls
    case Digit => IsDigit(c)
    case Space => IsSpace(c)
    case Letter => IsLetter(c)
    case AnyOf(cs) => c in cs
    case NoneOf(cs) => c !in cs
    case Union(a, b) => InClass(c, a) || InClass(c, b)
  }

  /** Class membership, under IGNORECASE when `ci`: the character or one of
      its case variants belongs to the class. (Every negated class used
      here lists no letters, so this also agrees with Python for them.) */
  predicate ClassHas(cls: CharClass, c: char, ci: bool) {
    InClass(c, cls) || (ci && (InClass(LowerChar(c), cls) || InClass(UpperChar(c), cls)))
  }

  datatype Re =
    | Boundary                                          // \b
    | Lit(s: string)                                    // a literal run
    | Repeat(cls: CharClass, lo: nat, hi: Option<nat>)  // cls{lo,hi}, greedy; hi None = unbounded
    | Cat(a: Re, b: Re)                                 // a then b
    | Alt(a: Re, b: Re)                                 // a|b, a tried first
    | Opt(r: Re)                                        // (r)?, greedy

  /** `\b` at position i: a word character on exactly one side. */
  predicate AtBoundary(t: string, i: nat)
    requires i <= |t|
  {
    (i > 0 && IsWordChar(t[i - 1])) != (i < |t| && IsWordChar(t[i]))
  }

  /** The literal `s` occurs at position i (case-insensitively when `ci`). */
  predicate LitAt(t: string, i: nat, s: string, ci: bool)
    requires i <= |t|
  {
    i + |s| <= |t| && (if ci then Lower(t[i..i + |s|]) == Lower(s) else t[i..i + |s|] == s)
  }

  /** Length of the run of class characters at i, stopped at `cap`. */
  function Run(t: string, i: nat, cls: CharClass, ci: bool, cap: Option<nat>): (n: nat)
    requires i <= |t|
    ensures i + n <= |t|
    ensures cap.Some? ==> n <= cap.value
    ensures forall k :: i <= k < i + n ==> ClassHas(cls, t[k], ci)
    ensures i + n < |t| && (cap.None? || n < cap.value) ==> !ClassHas(cls, t[i + n], ci)
    decreases |t| - i
  {
    if i < |t| && (cap.None? || cap.value > 0) && ClassHas(cls, t[i], ci)
    then 1 + Run(t, i + 1, cls, ci, if cap.None? then None else Some(cap.value - 1))
    else 0
  }

  /** hi, hi - 1, ..., lo: the order in which a greedy repetition gives back. */
  function Countdown(hi: nat, lo: nat): (ks: seq<nat>)
    requires lo <= hi
    ensures ks != [] && ks[0] == hi
    ensures forall k :: k in ks <==> lo <= k <= hi
    decreases hi - lo
  {
    if hi == lo then [lo] else [hi] + Countdown(hi - 1, lo)
  }

  /** The ends of the matches of `r` that start at i, in backtracking order. */
  function Ends(t: string, i: nat, r: Re, ci: bool): (es: seq<nat>)
    requires i <= |t|
    ensures forall e :: e in es ==> i <= e <= |t|
    decreases r, 0
  {
    match r
    case Boundary => if AtBoundary(t, i) then [i] else []
    case Lit(s) => if LitAt(t, i, s, ci) then [i + |s|] else []
    case Repeat(cls, lo, hi) =>
      var n := Run(t, i, cls, ci, hi);
      if n < lo then [] else Countdown(i + n, i + lo)
    case Cat(a, b) =>
      var ks := Ends(t, i, a, ci);
      CatEnds(t, i, ks, b, ci)
    case Alt(a, b) => Ends(t, i, a, ci) + Ends(t, i, b, ci)
    case Opt(a) => Ends(t, i, a, ci) + [i]
  }

  /** For each end k of the first part, in order, the ends of `b` from k. */
  function CatEnds(t: string, i: nat, ks: seq<nat>, b: Re, ci: bool): (es: seq<nat>)
    requires forall k :: k in ks ==> i <= k <= |t|
    ensures forall e :: e in es ==> i <= e <= |t|
    decreases b, 1, |ks|
  {
    if ks == [] then []
    else
      assert ks[0] in ks && forall k :: k in ks[1..] ==> k in ks;
      Ends(t, ks[0], b, ci) + CatEnds(t, i, ks[1..], b, ci)
  }

  /** Concatenation of a list of patterns (the empty list matches "").*/
  function Seq(rs: seq<Re>): Re {
    if rs == [] then Lit([])
    else if |rs| == 1 then rs[0]
    else Cat(rs[0], Seq(rs[1..]))
  }

  /** `\b...\b` around a concatenation. */
  function Bounded(rs: seq<Re>): Re {
    Seq([Boundary] + rs + [Boundary])
  }

  /** `\b...` with no boundary after it. */
  function Prefixed(rs: seq<Re>): Re {
    Seq([Boundary] + rs)
  }

  /** `\s+` */
  const Spaces: Re := Repeat(Space, 1, None)

  /** `\s*` */
  const OptSpaces: Re := Repeat(Space, 0, None)

  /** `[\s\-]?` */
  const OptSpaceOrDash: Re := Repeat(Union(Space, AnyOf("-")), 0, Some(1))

  /** What a pattern means: `r` matches exactly `t[i..j]`. */
  ghost predicate Accepts(t: string, i: nat, j: nat, r: Re, ci: bool)
    decreases r
  {
    i <= j <= |t| &&
    match r
    case Boundary => j == i && AtBoundary(t, i)
    case Lit(s) => LitAt(t, i, s, ci) && j == i + |s|
    case Repeat(cls, lo, hi) =>
      lo <= j - i && (hi.None? || j - i <= hi.value) &&
      forall k :: i <= k < j ==> ClassHas(cls, t[k], ci)
    case Cat(a, b) => exists k :: i <= k <= j && Accepts(t, i, k, a, ci) && Accepts(t, k, j, b, ci)
    case Alt(a, b) => Accepts(t, i, j, a, ci) || Accepts(t, i, j, b, ci)
    case Opt(a) => j == i || Accepts(t, i, j, a, ci)
  }

  /** A greedy run reaches at least as far as any run of class characters
      within the cap. */
  lemma {:induction false} RunCovers(t: string, i: nat, cls: CharClass, ci: bool, cap: Option<nat>, j: nat)
    requires i <= j <= |t|
    requires cap.None? || j - i <= cap.value
    requires forall k :: i <= k < j ==> ClassHas(cls, t[k], ci)
    ensures j <= i + Run(t, i, cls, ci, cap)
    decreases j - i
  {
    if i < j {
      RunCovers(t, i + 1, cls, ci, if cap.None? then None else Some(cap.value - 1), j);
    }
  }

  lemma {:induction false} CatEndsHas(t: string, i: nat, ks: seq<nat>, b: Re, ci: bool, j: nat)
    requires forall k :: k in ks ==> i <= k <= |t|
    ensures j in CatEnds(t, i, ks, b, ci) <==> exists k :: k in ks && j in Ends(t, k, b, ci)
    decreases |ks|
  {
    if ks != [] {
      assert forall k :: k in ks[1..] ==> k in ks;
      CatEndsHas(t, i, ks[1..], b, ci, j);
      assert ks[0] in ks;
      var head := Ends(t, ks[0], b, ci);
      assert CatEnds(t, i, ks, b, ci) == head + CatEnds(t, i, ks[1..], b, ci);
      if j in CatEnds(t, i, ks, b, ci) {
        if j in head {
          assert ks[0] in ks && j in Ends(t, ks[0], b, ci);
        } else {
          var k :| k in ks[1..] && j in Ends(t, k, b, ci);
          assert k in ks;
        }
      }
      if exists k :: k in ks && j in Ends(t, k, b, ci) {
        var k :| k in ks && j in Ends(t, k, b, ci);
        if k != ks[0] {
          assert k in ks[1..];
        }
      }
    }
  }

  /** The backtracking enumeration finds exactly the ends the pattern accepts. */
  lemma {:induction false} EndsAccepts(t: string, i: nat, j: nat, r: Re, ci: bool)
    requires i <= |t|
    ensures j in Ends(t, i, r, ci) <==> Accepts(t, i, j, r, ci)
    decreases r
  {
    match r
    case Boundary =>
    case Lit(s) =>
    case Repeat(cls, lo, hi) =>
      if Accepts(t, i, j, r, ci) {
        RunCovers(t, i, cls, ci, hi, j);
      }
    case Cat(a, b) =>
      CatEndsHas(t, i, Ends(t, i, a, ci), b, ci, j);
      forall k | i <= k <= |t|
        ensures k in Ends(t, i, a, ci) <==> Accepts(t, i, k, a, ci)
        ensures j in Ends(t, k, b, ci) <==> Accepts(t, k, j, b, ci)
      {
        EndsAccepts(t, i, k, a, ci);
        EndsAccepts(t, k, j, b, ci);
      }
    case Alt(a, b) =>
      EndsAccepts(t, i, j, a, ci);
      EndsAccepts(t, i, j, b, ci);
    case Opt(a) =>
      EndsAccepts(t, i, j, a, ci);
  }

  /** A concatenation accepts a piece that splits into consecutive pieces,
      the m-th accepted by the m-th part. */
  lemma {:induction false} AcceptsSeqIntro(t: string, ks: seq<nat>, rs: seq<Re>, ci: bool)
    requires rs != [] && |ks| == |rs| + 1
    requires forall m :: 0 <= m < |rs| ==> Accepts(t, ks[m], ks[m + 1], rs[m], ci)
    ensures Accepts(t, ks[0], ks[|rs|], Seq(rs), ci)
    decreases |rs|
  {
    if |rs| > 1 {
      AcceptsSeqIntro(t, ks[1..], rs[1..], ci);
      assert Accepts(t, ks[0], ks[1], rs[0], ci);
      assert Accepts(t, ks[1], ks[|rs|], Seq(rs[1..]), ci);
    }
  }

  /** Conversely, a piece accepted by a concatenation splits into such pieces. */
  lemma {:induction false} AcceptsSeqElim(t: string, i: nat, j: nat, rs: seq<Re>, ci: bool) returns (ks: seq<nat>)
    requires rs != [] && Accepts(t, i, j, Seq(rs), ci)
    ensures |ks| == |rs| + 1 && ks[0] == i && ks[|rs|] == j
    ensures forall m :: 0 <= m < |rs| ==> Accepts(t, ks[m], ks[m + 1], rs[m], ci)
    ensures forall m :: 0 <= m <= |rs| ==> i <= ks[m] <= j
    ensures forall m, n :: 0 <= m <= n <= |rs| ==> ks[m] <= ks[n]
    decreases |rs|
  {
    if |rs| == 1 {
      ks := [i, j];
    } else {
      var k :| i <= k <= j && Accepts(t, i, k, rs[0], ci) && Accepts(t, k, j, Seq(rs[1..]), ci);
      var rest := AcceptsSeqElim(t, k, j, rs[1..], ci);
      ks := [i] + rest;
      assert forall m :: 1 <= m <= |rs| ==> ks[m] == rest[m - 1];
    }
  }

  /** A greedy `cls*` always matches, first up to the end of the longest run. */
  lemma StarFirst(t: string, k: nat, cls: CharClass, ci: bool)
    requires k <= |t|
    ensures Ends(t, k, Repeat(cls, 0, None), ci) != []
    ensures Ends(t, k, Repeat(cls, 0, None), ci)[0] == k + Run(t, k, cls, ci, None)
  {
  }

  /** The first end of a concatenation comes from the first end of its
      first part, when the second part matches there. */
  lemma CatEndsFirst(t: string, i: nat, ks: seq<nat>, b: Re, ci: bool)
    requires forall k :: k in ks ==> i <= k <= |t|
    ensures ks == [] ==> CatEnds(t, i, ks, b, ci) == []
    ensures ks != [] && ks[0] <= |t| && Ends(t, ks[0], b, ci) != [] ==>
      CatEnds(t, i, ks, b, ci) != [] && CatEnds(t, i, ks, b, ci)[0] == Ends(t, ks[0], b, ci)[0]
  {
  }

  /** A pattern followed by a greedy `cls*` matches where the pattern does,
      and its first end is the pattern's first end extended over the
      longest run of class characters that follows. */
  lemma CatStarFirst(t: string, i: nat, a: Re, cls: CharClass, ci: bool)
    requires i <= |t|
    ensures Ends(t, i, Cat(a, Repeat(cls, 0, None)), ci) == [] <==> Ends(t, i, a, ci) == []
    ensures Ends(t, i, a, ci) != [] ==>
      var k := Ends(t, i, a, ci)[0];
      k <= |t| && Ends(t, i, Cat(a, Repeat(cls, 0, None)), ci)[0] == k + Run(t, k, cls, ci, None)
  {
    var ks := Ends(t, i, a, ci);
    var star := Repeat(cls, 0, None);
    CatEndsFirst(t, i, ks, star, ci);
    if ks != [] {
      assert ks[0] in ks;
      StarFirst(t, ks[0], cls, ci);
    }
  }

  /** The first match of a pattern followed by a greedy `cls*` stops only
      at the end of the text or before a character outside the class. */
  lemma CatStarStops(t: string, i: nat, a: Re, cls: CharClass, ci: bool)
    requires i <= |t|
    ensures var es := Ends(t, i, Cat(a, Repeat(cls, 0, None)), ci);
      es != [] && es[0] < |t| ==> !ClassHas(cls, t[es[0]], ci)
  {
    CatStarFirst(t, i, a, cls, ci);
  }

  /** The position and end of a reported match. */
  datatype Match = Match(start: nat, end: nat)

  /** `re.search` from position i on: the leftmost start with a match, and
      the end the backtracking matcher reaches first there. */
  function SearchFrom(t: string, r: Re, ci: bool, i: nat): (m: Option<Match>)
    requires i <= |t|
    ensures m.Some? ==> i <= m.value.start <= m.value.end <= |t|
    ensures m.Some? ==> Ends(t, m.value.start, r, ci) != [] && m.value.end == Ends(t, m.value.start, r, ci)[0]
    ensures m.Some? ==> forall k :: i <= k < m.value.start ==> Ends(t, k, r, ci) == []
    ensures m.None? ==> forall k :: i <= k <= |t| ==> Ends(t, k, r, ci) == []
    decreases |t| - i
  {
    var es := Ends(t, i, r, ci);
    if es != [] then assert es[0] in es; Some(Match(i, es[0]))
    else if i == |t| then None
    else SearchFrom(t, r, ci, i + 1)
  }

  /** `re.search(pattern, t)` (with `re.I` when `ci`). */
  function Search(t: string, r: Re, ci: bool): Option<Match> {
    SearchFrom(t, r, ci, 0)
  }

  /** `bool(re.search(pattern, t))` */
  predicate Found(t: string, r: Re, ci: bool) {
    Search(t, r, ci).Some?
  }

  /** The matched text, or "" when there is no match: both `m.group()` of a
      search and `re.findall(pattern, t)[0]` of a group-free pattern. */
  function FirstMatch(t: string, r: Re, ci: bool): string {
    match Search(t, r, ci)
    case None => ""
    case Some(m) => t[m.start..m.end]
  }

  /** A search succeeds exactly when some piece of the text is accepted, and
      then it reports an accepted piece at the leftmost possible start. */
  lemma SearchSpec(t: string, r: Re, ci: bool)
    ensures Found(t, r, ci) <==> exists i, j :: 0 <= i <= j <= |t| && Accepts(t, i, j, r, ci)
    ensures Found(t, r, ci) ==>
      var m := Search(t, r, ci).value;
      Accepts(t, m.start, m.end, r, ci) &&
      forall i, j :: 0 <= i < m.start && i <= j <= |t| ==> !Accepts(t, i, j, r, ci)
  {
    var s := Search(t, r, ci);
    if s.Some? {
      var m := s.value;
      EndsAccepts(t, m.start, m.end, r, ci);
      forall i, j | 0 <= i < m.start && i <= j <= |t| ensures !Accepts(t, i, j, r, ci) {
        EndsAccepts(t, i, j, r, ci);
      }
    } else {
      forall i, j | 0 <= i <= j <= |t| ensures !Accepts(t, i, j, r, ci) {
        EndsAccepts(t, i, j, r, ci);
      }
    }
  }

  /** When the search succeeds, the matched text is an accepted piece that
      starts as far left as any accepted piece can. */
  lemma FirstMatchSpec(t: string, r: Re, ci: bool) returns (i: nat, j: nat)
    requires Found(t, r, ci)
    ensures i <= j <= |t| && Accepts(t, i, j, r, ci) && FirstMatch(t, r, ci) == t[i..j]
    ensures forall i', j' :: 0 <= i' < i && i' <= j' <= |t| ==> !Accepts(t, i', j', r, ci)
  {
    SearchSpec(t, r, ci);
    var m := Search(t, r, ci).value;
    i, j := m.start, m.end;
  }

  /** A search succeeds as soon as some piece of the text is accepted. */
  lemma AcceptedFound(t: string, i: nat, j: nat, r: Re, ci: bool)
    requires Accepts(t, i, j, r, ci)
    ensures Found(t, r, ci)
  {
    SearchSpec(t, r, ci);
    assert 0 <= i <= j <= |t| && Accepts(t, i, j, r, ci);
  }

  /** Searching for a literal succeeds exactly when it occurs somewhere in
      the text; in particular the empty literal is found in every text. */
  lemma FoundLit(t: string, s: string, ci: bool)
    ensures Found(t, Lit(s), ci) <==> exists i :: 0 <= i <= |t| && LitAt(t, i, s, ci)
  {
    SearchSpec(t, Lit(s), ci);
    if exists i :: 0 <= i <= |t| && LitAt(t, i, s, ci) {
      var i :| 0 <= i <= |t| && LitAt(t, i, s, ci);
      assert Accepts(t, i, i + |s|, Lit(s), ci);
    }
    if Found(t, Lit(s), ci) {
      var i, j :| 0 <= i <= j <= |t| && Accepts(t, i, j, Lit(s), ci);
      assert LitAt(t, i, s, ci);
    }
  }

  /** `\b` + literal + `\b`: the whole-word form of a literal. */
  function WordRe(w: string): Re {
    Cat(Boundary, Cat(Lit(w), Boundary))
  }

  /** `w` occurs at i as a whole word. */
  predicate WholeWordAt(t: string, w: string, i: nat, ci: bool)
    requires i <= |t|
  {
    AtBoundary(t, i) && LitAt(t, i, w, ci) && AtBoundary(t, i + |w|)
  }

  /** The whole-word pattern accepts exactly a whole-word occurrence. */
  lemma WordAccepts(t: string, w: string, i: nat, j: nat, ci: bool)
    requires i <= j <= |t|
    ensures Accepts(t, i, j, WordRe(w), ci) <==> WholeWordAt(t, w, i, ci) && j == i + |w|
  {
    var tail := Cat(Lit(w), Boundary);
    if WholeWordAt(t, w, i, ci) && j == i + |w| {
      assert Accepts(t, i, i, Boundary, ci);
      assert Accepts(t, i, j, Lit(w), ci);
      assert Accepts(t, j, j, Boundary, ci);
      assert Accepts(t, i, j, tail, ci);
    }
    if Accepts(t, i, j, WordRe(w), ci) {
      assert Accepts(t, i, j, Cat(Boundary, tail), ci);
      var k :| i <= k <= j && Accepts(t, i, k, Boundary, ci) && Accepts(t, k, j, tail, ci);
      assert Accepts(t, k, j, Cat(Lit(w), Boundary), ci);
      var m :| k <= m <= j && Accepts(t, k, m, Lit(w), ci) && Accepts(t, m, j, Boundary, ci);
    }
  }

  /** Searching for the whole-word pattern finds a match exactly when the
      word occurs somewhere as a whole word. */
  lemma FoundWord(t: string, w: string, ci: bool)
    ensures Found(t, WordRe(w), ci) <==> exists i :: 0 <= i <= |t| && WholeWordAt(t, w, i, ci)
  {
    SearchWord(t, w, ci);
  }

  /** The search for a whole word reports its leftmost whole-word
      occurrence, and fails when there is none. */
  lemma SearchWord(t: string, w: string, ci: bool)
    ensures Search(t, WordRe(w), ci).Some? ==>
      var i := Search(t, WordRe(w), ci).value.start;
      i <= |t| && WholeWordAt(t, w, i, ci) && forall i' :: 0 <= i' < i ==> !WholeWordAt(t, w, i', ci)
    ensures Search(t, WordRe(w), ci).None? ==> forall i :: 0 <= i <= |t| ==> !WholeWordAt(t, w, i, ci)
  {
    SearchSpec(t, WordRe(w), ci);
    var s := Search(t, WordRe(w), ci);
    if s.Some? {
      WordAccepts(t, w, s.value.start, s.value.end, ci);
    }
    forall i | 0 <= i <= |t| && WholeWordAt(t, w, i, ci) ensures s.Some? && s.value.start <= i {
      WordAccepts(t, w, i, i + |w|, ci);
    }
  }

  /** `r0|r1|...`: alternatives tried in list order. */
  function Alts(rs: seq<Re>): Re
    requires rs != []
  {
    if |rs| == 1 then rs[0] else Alt(rs[0], Alts(rs[1..]))
  }

  /** A piece accepted by an alternation is accepted by one alternative. */
  lemma {:induction false} AltsElim(t: string, i: nat, j: nat, rs: seq<Re>, ci: bool) returns (k: nat)
    requires rs != [] && Accepts(t, i, j, Alts(rs), ci)
    ensures k < |rs| && Accepts(t, i, j, rs[k], ci)
    decreases |rs|
  {
    if |rs| == 1 || Accepts(t, i, j, rs[0], ci) {
      k := 0;
    } else {
      var k' := AltsElim(t, i, j, rs[1..], ci);
      k := k' + 1;
    }
  }

  /** Conversely, a piece accepted by one alternative is accepted. */
  lemma {:induction false} AltsIntro(t: string, i: nat, j: nat, rs: seq<Re>, ci: bool, k: nat)
    requires k < |rs| && Accepts(t, i, j, rs[k], ci)
    ensures Accepts(t, i, j, Alts(rs), ci)
    decreases |rs|
  {
    if |rs| > 1 && k > 0 {
      AltsIntro(t, i, j, rs[1..], ci, k - 1);
    }
  }

  /** The first end of an alternation is the first end of the first
      alternative that matches there. */
  lemma {:induction false} AltsFirst(t: string, i: nat, rs: seq<Re>, ci: bool) returns (k: nat)
    requires rs != [] && i <= |t| && Ends(t, i, Alts(rs), ci) != []
    ensures k < |rs| && Ends(t, i, rs[k], ci) != [] && Ends(t, i, rs[k], ci)[0] == Ends(t, i, Alts(rs), ci)[0]
    decreases |rs|
  {
    if |rs| == 1 || Ends(t, i, rs[0], ci) != [] {
      k := 0;
    } else {
      var k' := AltsFirst(t, i, rs[1..], ci);
      k := k' + 1;
    }
  }

  /** One literal per word. */
  function LitsOf(ws: seq<string>): (rs: seq<Re>)
    ensures |rs| == |ws| && forall k :: 0 <= k < |ws| ==> rs[k] == Lit(ws[k])
  {
    seq(|ws|, k requires 0 <= k < |ws| => Lit(ws[k]))
  }

  /** One literal per word, each followed by the same pattern. */
  function LitsThen(ws: seq<string>, tail: Re): (rs: seq<Re>)
    ensures |rs| == |ws| && forall k :: 0 <= k < |ws| ==> rs[k] == Cat(Lit(ws[k]), tail)
  {
    seq(|ws|, k requires 0 <= k < |ws| => Cat(Lit(ws[k]), tail))
  }

  /** `any(re.search(p, t, re.I) for p in ps)`: some pattern of the list
      is found in the text, case-insensitively. */
  predicate AnyFound(text: string, ps: seq<Re>)
    decreases |ps|
  {
    ps != [] && (Found(text, ps[0], true) || AnyFound(text, ps[1..]))
  }

  lemma {:induction false} AnyFoundSpec(text: string, ps: seq<Re>)
    ensures AnyFound(text, ps) <==> exists p :: p in ps && Found(text, p, true)
    decreases |ps|
  {
    if ps != [] {
      AnyFoundSpec(text, ps[1..]);
      assert forall p :: p in ps <==> p == ps[0] || p in ps[1..];
    }
  }

  /** One whole-word pattern per word. */
  function WordsRe(ws: seq<string>): (rs: seq<Re>)
    ensures |rs| == |ws| && forall k :: 0 <= k < |ws| ==> rs[k] == WordRe(ws[k])
  {
    seq(|ws|, k requires 0 <= k < |ws| => WordRe(ws[k]))
  }

  /** `w` occurs somewhere in `t` as a whole word. */
  predicate HasWholeWord(t: string, w: string, ci: bool) {
    exists i :: 0 <= i <= |t| && WholeWordAt(t, w, i, ci)
  }

  /** Some word's whole-word pattern is found exactly when one of the words
      occurs as a whole word, in any case. */
  lemma {:induction false} AnyWordFound(t: string, ws: seq<string>)
    ensures AnyFound(t, WordsRe(ws)) <==> exists w :: w in ws && HasWholeWord(t, w, true)
    decreases |ws|
  {
    if ws != [] {
      AnyWordFound(t, ws[1..]);
      assert WordsRe(ws)[1..] == WordsRe(ws[1..]);
      FoundWord(t, ws[0], true);
      assert Found(t, WordsRe(ws)[0], true) <==> HasWholeWord(t, ws[0], true);
      assert AnyFound(t, WordsRe(ws)) <==> Found(t, WordsRe(ws)[0], true) || AnyFound(t, WordsRe(ws[1..]));
      assert forall w :: w in ws <==> w == ws[0] || w in ws[1..];
    }
  }

  /** Some word of `ws` occurs at i, case-insensitively. */
  predicate LitsAt(t: string, i: nat, ws: seq<string>) {
    i <= |t| && exists k :: 0 <= k < |ws| && LitAt(t, i, ws[k], true)
  }

  /** `t[i..j]` starts with the leftmost occurrence of a word of `ws`, has
      no stop character, and ends at the end of `t` or before a stop
      character. */
  predicate UpToStop(t: string, ws: seq<string>, stops: string, i: nat, j: nat) {
    i <= j <= |t| && LitsAt(t, i, ws) &&
    (forall i' :: 0 <= i' < i ==> !LitsAt(t, i', ws)) &&
    (forall p :: i <= p < j ==> t[p] !in stops) &&
    (j == |t| || t[j] in stops)
  }

  /** `(w0[^stops]*|w1[^stops]*|...)` */
  function WordsToStop(ws: seq<string>, stops: string): Re
    requires ws != []
  {
    Alts(LitsThen(ws, Repeat(NoneOf(stops), 0, None)))
  }

  /** Each occurrence of a word starts a match. */
  lemma LitsAtAccepted(t: string, i: nat, ws: seq<string>, stops: string, k: nat)
    requires ws != [] && i <= |t| && k < |ws| && LitAt(t, i, ws[k], true)
    ensures Accepts(t, i, i + |ws[k]|, WordsToStop(ws, stops), true)
  {
    var rs := LitsThen(ws, Repeat(NoneOf(stops), 0, None));
    var j := i + |ws[k]|;
    assert Accepts(t, i, j, Lit(ws[k]), true);
    assert Accepts(t, j, j, Repeat(NoneOf(stops), 0, None), true);
    assert Accepts(t, i, j, rs[k], true);
    AltsIntro(t, i, j, rs, true, k);
  }

  /** When the stops are no letters, a character of `[^stops]`, whatever
      the case folding, is no stop character. */
  lemma ClassAvoidsStops(c: char, stops: string)
    requires forall x :: x in stops ==> !IsLetter(x)
    requires ClassHas(NoneOf(stops), c, true)
    ensures c !in stops
  {
  }

  /** A match starts with an occurrence of a word and holds no stop
      character, when the words hold none and the stops are no letters. */
  lemma AcceptedToStop(t: string, i: nat, j: nat, ws: seq<string>, stops: string)
    requires ws != [] && Accepts(t, i, j, WordsToStop(ws, stops), true)
    requires forall c :: c in stops ==> !IsLetter(c)
    requires forall k :: 0 <= k < |ws| ==> forall c :: c in ws[k] ==> c !in stops
    ensures LitsAt(t, i, ws)
    ensures exists k :: 0 <= k < |ws| && i + |ws[k]| <= j && LitAt(t, i, ws[k], true)
    ensures forall p :: i <= p < j ==> t[p] !in stops
  {
    var tail := Repeat(NoneOf(stops), 0, None);
    var k := AltsElim(t, i, j, LitsThen(ws, tail), true);
    var w := ws[k];
    assert Accepts(t, i, j, Cat(Lit(w), tail), true);
    var m :| i <= m <= j && Accepts(t, i, m, Lit(w), true) && Accepts(t, m, j, tail, true);
    assert LitAt(t, i, w, true) && i + |w| <= j;
    forall p | i <= p < j ensures t[p] !in stops {
      if p < m {
        var c := w[p - i];
        assert c in w;
        assert LowerChar(t[p]) == Lower(t[i..m])[p - i] == Lower(w)[p - i] == LowerChar(c);
      } else {
        ClassAvoidsStops(t[p], stops);
      }
    }
  }

  /** A match of `(w0[^stops]*|...)` starts with a letter when every word
      does. */
  lemma WordsToStopStart(t: string, i: nat, j: nat, ws: seq<string>, stops: string)
    requires ws != [] && Accepts(t, i, j, WordsToStop(ws, stops), true)
    requires forall k :: 0 <= k < |ws| ==> ws[k] != [] && IsLetter(ws[k][0])
    ensures i < j && IsLetter(t[i])
  {
    var tail := Repeat(NoneOf(stops), 0, None);
    var k := AltsElim(t, i, j, LitsThen(ws, tail), true);
    var w := ws[k];
    assert Accepts(t, i, j, Cat(Lit(w), tail), true);
    var m :| i <= m <= j && Accepts(t, i, m, Lit(w), true) && Accepts(t, m, j, tail, true);
    assert Lower(t[i..m])[0] == Lower(w)[0];
    assert Lower(t[i..m])[0] == LowerChar(t[i]);
  }

  /** Searching for `(w0[^stops]*|...)` ignoring case, for words without a
      stop character and stops that are no letters: found exactly when
      some word occurs, and then the match runs from the leftmost
      occurrence of any word up to the first stop character after it, or
      to the end of the text. */
  lemma WordsToStopSearch(t: string, ws: seq<string>, stops: string)
    requires ws != []
    requires forall c :: c in stops ==> !IsLetter(c)
    requires forall k :: 0 <= k < |ws| ==> forall c :: c in ws[k] ==> c !in stops
    ensures Found(t, WordsToStop(ws, stops), true) <==> exists i :: 0 <= i <= |t| && LitsAt(t, i, ws)
    ensures Found(t, WordsToStop(ws, stops), true) ==>
      exists i: nat, j: nat :: UpToStop(t, ws, stops, i, j) && FirstMatch(t, WordsToStop(ws, stops), true) == t[i..j]
  {
    var r := WordsToStop(ws, stops);
    SearchSpec(t, r, true);
    if exists i :: 0 <= i <= |t| && LitsAt(t, i, ws) {
      var i :| 0 <= i <= |t| && LitsAt(t, i, ws);
      var k :| 0 <= k < |ws| && LitAt(t, i, ws[k], true);
      LitsAtAccepted(t, i, ws, stops, k);
      AcceptedFound(t, i, i + |ws[k]|, r, true);
    }
    if Found(t, r, true) {
      var m := Search(t, r, true).value;
      var i, j := m.start, m.end;
      AcceptedToStop(t, i, j, ws, stops);
      forall i' | 0 <= i' < i ensures !LitsAt(t, i', ws) {
        if LitsAt(t, i', ws) {
          var k :| 0 <= k < |ws| && LitAt(t, i', ws[k], true);
          LitsAtAccepted(t, i', ws, stops, k);
        }
      }
      var rs := LitsThen(ws, Repeat(NoneOf(stops), 0, None));
      var k := AltsFirst(t, i, rs, true);
      CatStarStops(t, i, Lit(ws[k]), NoneOf(stops), true);
      assert UpToStop(t, ws, stops, i, j);
    }
  }
}
