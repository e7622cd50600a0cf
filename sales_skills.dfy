/**
 * Industry tagging of the sales pipeline (xcelgrad_sales.py): its variant
 * of the label normalisation, its pattern catalog, and a presence check
 * whose fallback is a plain substring search.
 */
module SalesSkills {
  import opened PyStr
  import opened Regex
  import opened Labels
  import opened LabelDedup
  import TechSkills

  // ---------------------------------------------------------------------
  // normalize_skill_list
  // ---------------------------------------------------------------------

  /** The normalised list: deduplicated on the trimmed, lower-cased key in
      first-seen order, each kept label shown under the casing policy as
      it was given, surrounding white space included. */
  function Normalized(labels: seq<string>): seq<string> {
    Dedup(labels, Key, DisplayForm)
  }

  /** `normalize_skill_list`: one pass over the labels with a set of seen
      keys and the growing result list. */
  method NormalizeSkillList(skills: seq<string>) returns (result: seq<string>)
    ensures result == Normalized(skills)
  {
    var seen: set<string> := {};
    result := [];
    for i := 0 to |skills|
      invariant seen == SeenKeys(skills[..i], Key)
      invariant result == Dedup(skills[..i], Key, DisplayForm)
    {
      DedupStep(skills, Key, DisplayForm, i);
      var s := skills[i];
      var key := Lower(Strip(s));
      if key != [] && key !in seen {
        seen := seen + {key};
        result := result + [DisplayForm(s)];
      }
    }
    assert skills[..|skills|] == skills;
  }

  /** The casing policy keeps the key and is idempotent. */
  lemma DisplayFormKeeps()
    ensures forall s :: Key(DisplayForm(s)) == Key(s)
    ensures forall s :: DisplayForm(DisplayForm(s)) == DisplayForm(s)
  {
    forall s ensures Key(DisplayForm(s)) == Key(s) && DisplayForm(DisplayForm(s)) == DisplayForm(s) {
      KeyOfDisplayForm(s);
      DisplayFormSpec(s);
    }
  }

  /** Shape of the normalised list: no entry blank, every entry already in
      display form, no two entries with the same key, and one entry for
      each key of a non-blank label. */
  lemma NormalizedShape(labels: seq<string>)
    ensures forall o :: o in Normalized(labels) ==> !IsBlank(o) && DisplayForm(o) == o
    ensures forall a, b :: 0 <= a < b < |Normalized(labels)| ==>
      Key(Normalized(labels)[a]) != Key(Normalized(labels)[b])
    ensures forall key :: key in SeenKeys(labels, Key) <==>
      exists o :: o in Normalized(labels) && Key(o) == key
  {
    var r := Normalized(labels);
    DisplayFormKeeps();
    DedupKeys(labels, Key, DisplayForm);
    DedupFirstSeen(labels, Key, DisplayForm);
    forall o | o in r ensures !IsBlank(o) && DisplayForm(o) == o {
      var m :| 0 <= m < |r| && r[m] == o;
      assert o == DisplayForm(labels[FirstSeenPositions(labels, Key)[m]]);
    }
  }

  /** The normalised list holds, in input order, the display form of each
      label that is non-blank and whose key no earlier label has; each
      entry has its label's length and white space where its label has it,
      so surrounding white space is kept. */
  lemma NormalizedFirstSeen(labels: seq<string>)
    ensures var pos := FirstSeenPositions(labels, Key);
      |Normalized(labels)| == |pos| &&
      (forall m, m' :: 0 <= m < m' < |pos| ==> pos[m] < pos[m']) &&
      (forall j: nat :: j in pos <==>
        (j < |labels| && !IsBlank(labels[j]) && forall i :: 0 <= i < j ==> Key(labels[i]) != Key(labels[j]))) &&
      (forall m :: 0 <= m < |pos| ==> (
        pos[m] < |labels| &&
        Normalized(labels)[m] == DisplayForm(labels[pos[m]]) &&
        |Normalized(labels)[m]| == |labels[pos[m]]| &&
        forall k :: 0 <= k < |labels[pos[m]]| ==>
          (IsSpace(Normalized(labels)[m][k]) <==> IsSpace(labels[pos[m]][k]))))
  {
    DedupFirstSeen(labels, Key, DisplayForm);
    FirstSeenPositionsSpec(labels, Key);
    forall j: nat | j < |labels| {
      FirstSeenMeans(labels, Key, j);
    }
    forall s {
      DisplayFormSpec(s);
    }
  }

  /** Normalising a normalised list changes nothing. */
  lemma NormalizedIdempotent(labels: seq<string>)
    ensures Normalized(Normalized(labels)) == Normalized(labels)
  {
    DisplayFormKeeps();
    DedupIdempotent(labels, Key, DisplayForm);
  }

  /** Both variants keep the labels at the same positions; they differ only
      in what they show for a label with surrounding white space, which
      the tech variant trims away. */
  lemma NormalizedAgainstTech(labels: seq<string>)
    ensures var pos := FirstSeenPositions(labels, Key);
      |Normalized(labels)| == |pos| && |TechSkills.Normalized(labels)| == |pos| &&
      forall m :: 0 <= m < |pos| ==> (
        pos[m] < |labels| &&
        Normalized(labels)[m] == DisplayForm(labels[pos[m]]) &&
        TechSkills.Normalized(labels)[m] == DisplayForm(Strip(labels[pos[m]])) &&
        Key(Normalized(labels)[m]) == Key(TechSkills.Normalized(labels)[m]) &&
        (IsStripped(labels[pos[m]]) ==> Normalized(labels)[m] == TechSkills.Normalized(labels)[m]))
  {
    var pos := FirstSeenPositions(labels, Key);
    DedupFirstSeen(labels, Key, DisplayForm);
    TechSkills.NormalizedFirstSeen(labels);
    forall m | 0 <= m < |pos|
      ensures Key(DisplayForm(labels[pos[m]])) == Key(DisplayForm(Strip(labels[pos[m]])))
      ensures IsStripped(labels[pos[m]]) ==> Strip(labels[pos[m]]) == labels[pos[m]]
    {
      var s := labels[pos[m]];
      KeyOfDisplayForm(s);
      KeyOfDisplayForm(Strip(s));
      StripSpec(s);
      StripStripped(Strip(s));
      if IsStripped(s) {
        StripStripped(s);
      }
    }
  }

  /** A padded short acronym is kept with its padding, while a padded
      longer one is title-cased: the padding counts towards the length. */
  lemma PaddedLabels(a: string, b: string)
    requires a == " IT " && b == " SALES"
    ensures DisplayForm(a) == " IT "
    ensures DisplayForm(b) == " Sales"
  {
  }

  // ---------------------------------------------------------------------
  // INDUSTRY_PATTERNS and check_skill_present
  // ---------------------------------------------------------------------

  /** `INDUSTRY_PATTERNS`: label to patterns, all matched case-insensitively. */
  function Catalog(): map<string, seq<Re>> {
    map[
      "Pharma" := [
        Bounded([Lit("pharma")]),
        Bounded([Lit("pharmaceutical"), Opt(Lit("s"))])],
      "Hospitality" := [
        Prefixed([Lit("hospitalit")]),
        Bounded([Lit("hotel"), Opt(Lit("s"))])],
      "Enterprise Software" := [
        Bounded([Lit("enterprise"), OptSpaces, Lit("software")])],
      "Real Estate" := [
        Bounded([Lit("real"), OptSpaces, Lit("estate")])],
      "Agritech" := [
        Bounded([Lit("agritech")])],
      "Sales" := [
        Bounded([Lit("sales")])],
      "Business Development" := [
        Bounded([Lit("business"), Spaces, Lit("development")]),
        Bounded([Lit("bd")])],
      "HoReCa" := [
        Bounded([Lit("horeca")])],
      "Banking" := [
        Bounded([Lit("bank"), Opt(Lit("ing"))])],
      "FMCG" := [
        Bounded([Lit("fmcg")])],
      "Telecom" := [
        Bounded([Lit("telecom")])],
      "Insurance" := [
        Bounded([Lit("insurance")])],
      "Fintech" := [
        Bounded([Lit("fintech")])],
      "IT" := [
        Bounded([Lit("it")]),
        Bounded([Lit("information"), Spaces, Lit("technology")])],
      "Saas" := [
        Bounded([Lit("saas")])],
      "B2B" := [
        Bounded([Lit("b2b")])],
      "Edtech" := [
        Bounded([Lit("edtech")])],
      "BFSI" := [
        Bounded([Lit("bfsi")])],
      "Logistics" := [
        Prefixed([Lit("logistic")]),
        Bounded([Lit("supply"), Spaces, Lit("chain")])],
      "Ecommerce" := [
        Bounded([Lit("e"), OptSpaces, Lit("commerce")]),
        Bounded([Lit("ecommerce")])]
    ]
  }

  /** The patterns used for a label: its catalog entry, looked up by exact
      key, or else the lower-cased label as a plain literal. */
  function Patterns(name: string): seq<Re> {
    if name in Catalog() then Catalog()[name] else [Lit(Lower(name))]
  }

  /** `check_skill_present`: 1 when some pattern of the label is found in
      the text, 0 otherwise. */
  function CheckSkillPresent(text: string, name: string): (present: int)
    ensures present == 0 || present == 1
    ensures present == 1 <==> exists p :: p in Patterns(name) && Found(text, p, true)
  {
    AnyFoundSpec(text, Patterns(name));
    if AnyFound(text, Patterns(name)) then 1 else 0
  }

  /** A label that is not a catalog key is found exactly when its
      lower-cased form occurs anywhere in the text, in any case, even
      inside a longer word. */
  lemma CheckFallback(text: string, name: string)
    requires name !in Catalog()
    ensures CheckSkillPresent(text, name) == 1 <==>
      exists i :: 0 <= i <= |text| && LitAt(text, i, Lower(name), true)
  {
    FoundLit(text, Lower(name), true);
    assert Patterns(name) == [Lit(Lower(name))];
  }

  /** The empty label is no catalog key, so it is found in every text, the
      empty one included; the tech pipeline reports it absent. */
  lemma EmptyLabelPresent(text: string)
    ensures CheckSkillPresent(text, []) == 1
    ensures TechSkills.CheckSkillPresent(text, []) == 0
  {
    assert [] !in Catalog();
    CheckFallback(text, []);
    assert LitAt(text, 0, Lower([]), true);
  }

  // ---------------------------------------------------------------------
  // RAW_SKILLS and SKILLS_TO_CHECK
  // ---------------------------------------------------------------------

  /** The labels as listed. */
  const RawSkills: seq<string> := [
    "Pharma", "Hospitality", "Enterprise Software", "Real Estate", "Agritech",
    "Sales", "Business Development", "HoReCa", "Banking", "FMCG",
    "Telecom", "Insurance", "Fintech", "IT", "Saas", "B2B",
    "Edtech", "BFSI", "Logistics", "Ecommerce"
  ]

  /** `SKILLS_TO_CHECK`: the normalised `RawSkills`, written out. Only
      "HoReCa" changes, to "Horeca". */
  const SkillsToCheck: seq<string> := [
    "Pharma", "Hospitality", "Enterprise Software", "Real Estate", "Agritech",
    "Sales", "Business Development", "Horeca", "Banking", "FMCG",
    "Telecom", "Insurance", "Fintech", "IT", "Saas", "B2B",
    "Edtech", "BFSI", "Logistics", "Ecommerce"
  ]

  /** Only "Horeca" is not a catalog key as written, so it is searched for
      only as a substring, never by the catalog's pattern. */
  lemma SkillsToCheckCatalog()
    ensures SkillsToCheck[7] == "Horeca" && SkillsToCheck[7] !in Catalog()
    ensures forall i :: 0 <= i < |SkillsToCheck| && i != 7 ==> SkillsToCheck[i] in Catalog()
  {
  }
}
