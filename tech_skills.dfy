/**
 * Skill/industry tagging of the tech pipeline (xcelgrad_tech.py): the label
 * list normalisation, the pattern catalog, the presence check, and the
 * labels the pipeline checks.
 */
module TechSkills {
  import opened PyStr
  import opened Regex
  import opened Labels
  import opened LabelDedup

  // ---------------------------------------------------------------------
  // normalize_skill_list
  // ---------------------------------------------------------------------

  /** The display form of a kept label: its trimmed text under the casing
      policy. */
  function Shown(s: string): string {
    DisplayForm(Strip(s))
  }

  /** The normalised list: deduplicated on the trimmed, lower-cased key in
      first-seen order, each kept label shown trimmed. */
  function Normalized(labels: seq<string>): seq<string> {
    Dedup(labels, Key, Shown)
  }

  /** `normalize_skill_list`: one pass over the labels with a set of seen
      keys and the growing result list. */
  method NormalizeSkillList(skills: seq<string>) returns (normalized: seq<string>)
    ensures normalized == Normalized(skills)
  {
    var seen: set<string> := {};
    normalized := [];
    for i := 0 to |skills|
      invariant seen == SeenKeys(skills[..i], Key)
      invariant normalized == Dedup(skills[..i], Key, Shown)
    {
      assert skills[..i + 1][..i] == skills[..i];
      var key := Strip(skills[i]);
      if key == [] {
        continue;
      }
      var lower := Lower(key);
      if lower !in seen {
        seen := seen + {lower};
        normalized := normalized + [DisplayForm(key)];
      }
    }
    assert skills[..|skills|] == skills;
  }

  /** The display form keeps the key and is idempotent. */
  lemma ShownSpec()
    ensures forall s :: Key(Shown(s)) == Key(s)
    ensures forall s :: Shown(Shown(s)) == Shown(s)
    ensures forall s :: Shown(s) != [] ==> IsStripped(Shown(s))
  {
    forall s ensures Key(Shown(s)) == Key(s) && Shown(Shown(s)) == Shown(s) && IsStripped(Shown(s)) {
      var t := Strip(s);
      StripSpec(s);
      DisplayFormSpec(t);
      StripStripped(DisplayForm(t));
    }
  }

  /** Shape of the normalised list: no entry blank or with surrounding white
      space, every entry already in display form, no two entries equal
      ignoring case, and one entry for each key of a non-blank label. */
  lemma NormalizedShape(labels: seq<string>)
    ensures forall o :: o in Normalized(labels) ==> !IsBlank(o) && IsStripped(o) && DisplayForm(o) == o
    ensures forall a, b :: 0 <= a < b < |Normalized(labels)| ==>
      Lower(Normalized(labels)[a]) != Lower(Normalized(labels)[b])
    ensures forall key :: key in SeenKeys(labels, Key) <==>
      exists o :: o in Normalized(labels) && Lower(o) == key
  {
    var r := Normalized(labels);
    ShownSpec();
    DedupKeys(labels, Key, Shown);
    DedupFirstSeen(labels, Key, Shown);
    var pos := FirstSeenPositions(labels, Key);
    forall o | o in r ensures !IsBlank(o) && IsStripped(o) && DisplayForm(o) == o && Lower(o) == Key(o) {
      var m :| 0 <= m < |r| && r[m] == o;
      assert o == Shown(labels[pos[m]]);
      DisplayFormSpec(Strip(labels[pos[m]]));
      StripStripped(o);
    }
    forall a, b | 0 <= a < b < |r| ensures Lower(r[a]) != Lower(r[b]) {
      assert r[a] in r && r[b] in r;
    }
  }

  /** The normalised list holds the shown label at each position whose
      label is non-blank and whose key no earlier label has, in input order. */
  lemma NormalizedFirstSeen(labels: seq<string>)
    ensures var pos := FirstSeenPositions(labels, Key);
      |Normalized(labels)| == |pos| &&
      (forall m :: 0 <= m < |pos| ==> pos[m] < |labels| && Normalized(labels)[m] == DisplayForm(Strip(labels[pos[m]]))) &&
      (forall m, m' :: 0 <= m < m' < |pos| ==> pos[m] < pos[m']) &&
      (forall j: nat :: j in pos <==>
        (j < |labels| && !IsBlank(labels[j]) && forall i :: 0 <= i < j ==> Key(labels[i]) != Key(labels[j])))
  {
    DedupFirstSeen(labels, Key, Shown);
    FirstSeenPositionsSpec(labels, Key);
    forall j: nat | j < |labels| {
      FirstSeenMeans(labels, Key, j);
    }
  }

  /** Normalising a normalised list changes nothing. */
  lemma NormalizedIdempotent(labels: seq<string>)
    ensures Normalized(Normalized(labels)) == Normalized(labels)
  {
    ShownSpec();
    DedupIdempotent(labels, Key, Shown);
  }

  // ---------------------------------------------------------------------
  // INDUSTRY_PATTERNS and check_skill_present
  // ---------------------------------------------------------------------

  /** `INDUSTRY_PATTERNS`: label to patterns, all matched case-insensitively. */
  function Catalog(): map<string, seq<Re>> {
    map[
      "Pharma" := [
        Bounded([Lit("pharma")]),
        Bounded([Lit("pharmaceutical"), Opt(Lit("s"))]),
        Bounded([Lit("pharmaceutical")])],
      "Hospitality" := [
        Bounded([Lit("hospitalit"), Alt(Lit("y"), Lit("ies"))]),
        Bounded([Lit("hotel"), Opt(Lit("s"))]),
        Bounded([Lit("food"), Spaces, Lit("and"), Spaces, Lit("beverage")]),
        Bounded([Lit("fnb")])],
      "Enterprise Software" := [
        Bounded([Lit("enterprise"), OptSpaceOrDash, Lit("software")]),
        Bounded([Lit("enterprise"), Spaces, Lit("app"), Opt(Lit("s"))]),
        Bounded([Lit("enterprise"), Spaces, Lit("solution"), Opt(Lit("s"))])],
      "Real Estate" := [
        Bounded([Lit("real"), OptSpaceOrDash, Lit("estate")]),
        Bounded([Lit("property"), Spaces, Lit("development")]),
        Bounded([Lit("property"), Spaces, Lit("management")])],
      "Agritech" := [
        Bounded([Lit("agritech")]),
        Bounded([Lit("agri"), OptSpaceOrDash, Lit("tech")]),
        Bounded([Lit("agriculture")]),
        Bounded([Lit("farming")])],
      "Sales" := [
        Bounded([Lit("sales")]),
        Bounded([Lit("sales"), Spaces, Lit("professional")]),
        Bounded([Lit("sales"), Spaces, Lit("executive")])],
      "Business Development" := [
        Bounded([Lit("business"), Spaces, Lit("development")]),
        Bounded([Lit("bd"), Spaces, Lit("manager")]),
        Bounded([Lit("business"), Spaces, Lit("dev")]),
        Bounded([Lit("bd")])],
      "HoReCa" := [
        Bounded([Lit("horeca")]),
        Bounded([Lit("hotel"), Spaces, Lit("restaurant"), Spaces, Lit("cafe")])],
      "Banking" := [
        Bounded([Lit("bank"), Opt(Lit("ing"))]),
        Bounded([Lit("financial"), Spaces, Lit("services")])],
      "FMCG" := [
        Bounded([Lit("fmcg")]),
        Bounded([Lit("fast"), Spaces, Lit("moving"), Spaces, Lit("consumer"), Spaces, Lit("goods")])],
      "TELECOM" := [
        Bounded([Lit("telecom")]),
        Bounded([Lit("telecommunication"), Opt(Lit("s"))]),
        Bounded([Lit("telecom"), Opt(Lit("s"))])],
      "INSURANCE" := [
        Bounded([Lit("insurance")]),
        Bounded([Lit("insurance"), Spaces, Lit("industry")])],
      "FINTECH" := [
        Bounded([Lit("fintech")]),
        Bounded([Lit("financial"), Spaces, Lit("technology")])],
      "IT" := [
        Bounded([Lit("it"), Spaces, Lit("sector")]),
        Bounded([Lit("information"), Spaces, Lit("technology")]),
        Bounded([Lit("it"), Spaces, Lit("services")]),
        Bounded([Lit("technology"), Spaces, Lit("company")])],
      "SAAS" := [
        Bounded([Lit("saas")]),
        Bounded([Lit("software"), Spaces, Lit("as"), Spaces, Lit("a"), Spaces, Lit("service")])],
      "B2b" := [
        Bounded([Lit("b2b")]),
        Bounded([Lit("business-to-business")])],
      "Edtech" := [
        Bounded([Lit("edtech")]),
        Bounded([Lit("education"), Spaces, Lit("technology")]),
        Bounded([Lit("educational"), Spaces, Lit("technology")])],
      "BFSI" := [
        Bounded([Lit("bfsi")]),
        Bounded([Lit("banking"), Spaces, Lit("finance"), Spaces, Lit("and"), Spaces, Lit("insurance")])],
      "Logistic" := [
        Bounded([Lit("logistic"), Opt(Lit("s"))]),
        Bounded([Lit("supply"), Spaces, Lit("chain")]),
        Bounded([Lit("logistic"), Opt(Lit("s"))])],
      "ECommerce" := [
        Bounded([Lit("e"), OptSpaceOrDash, Lit("commerce")]),
        Bounded([Lit("ecommerce")]),
        Bounded([Lit("online"), Spaces, Lit("retail")])]
    ]
  }

  /** The patterns used for a label: its catalog entry, looked up by exact
      key, or else the lower-cased label as one whole-word literal. */
  function Patterns(name: string): seq<Re> {
    if name in Catalog() then Catalog()[name] else [WordRe(Lower(name))]
  }

  /** `check_skill_present`: 1 when some pattern of the label is found in
      the whole text, 0 otherwise, and 0 for an empty text or label. */
  function CheckSkillPresent(text: string, name: string): (present: int)
    ensures present == 0 || present == 1
    ensures text == [] || name == [] ==> present == 0
    ensures present == 1 <==> text != [] && name != [] && exists p :: p in Patterns(name) && Found(text, p, true)
  {
    AnyFoundSpec(text, Patterns(name));
    if text == [] || name == [] then 0
    else if AnyFound(text, Patterns(name)) then 1
    else 0
  }

  /** A label that is not a catalog key is found exactly when its
      lower-cased form occurs in the text as a whole word, in any case. */
  lemma CheckFallback(text: string, name: string)
    requires name !in Catalog() && text != [] && name != []
    ensures CheckSkillPresent(text, name) == 1 <==>
      exists i :: 0 <= i <= |text| && WholeWordAt(text, Lower(name), i, true)
  {
    FoundWord(text, Lower(name), true);
    assert Patterns(name) == [WordRe(Lower(name))];
  }

  // ---------------------------------------------------------------------
  // RAW_SKILLS and SKILLS_TO_CHECK
  // ---------------------------------------------------------------------

  /** The labels as listed, with a case-variant duplicate of "SALES". */
  const RawSkills: seq<string> := [
    "Pharma", "Hospitality", "Enterprise software", "Real Estate", "Agritech",
    "SALES", "Business Development", "HoReCa", "Banking", "FMCG",
    "TELECOM", "INSURANCE", "FINTECH", "IT", "SAAS",
    "B2b", "sales", "EdTech", "BFSI", "Logistic", "ECommerce"
  ]

  /** `SKILLS_TO_CHECK`: the normalised `RawSkills`, written out. */
  const SkillsToCheck: seq<string> := [
    "Pharma", "Hospitality", "Enterprise Software", "Real Estate", "Agritech",
    "SALES", "Business Development", "Horeca", "Banking", "FMCG",
    "Telecom", "Insurance", "Fintech", "IT", "SAAS",
    "B2B", "Edtech", "BFSI", "Logistic", "Ecommerce"
  ]

  /** Seven of the checked labels are not catalog keys as written, so they
      are searched for only as whole words, never by their synonyms. */
  lemma SkillsToCheckMissCatalog()
    ensures forall i :: i in {5, 7, 10, 11, 12, 15, 19} ==>
      0 <= i < |SkillsToCheck| && SkillsToCheck[i] !in Catalog()
  {
  }

  /** The other thirteen are catalog keys. */
  lemma SkillsToCheckInCatalog()
    ensures forall i :: 0 <= i < |SkillsToCheck| && i !in {5, 7, 10, 11, 12, 15, 19} ==>
      SkillsToCheck[i] in Catalog()
  {
  }
}
