/** The key on which both pipelines deduplicate skill labels, and the
    casing policy they apply to the labels they keep. */
module Labels {
  import opened PyStr

  /** A label that is all capitals and at most five characters long is
      taken for an acronym and kept as it is; any other label is
      title-cased. */
  function DisplayForm(name: string): string {
    if IsUpper(name) && |name| <= 5 then name else Title(name)
  }

  /** The display form differs from the label only in the case of its
      letters, and applying the policy a second time changes nothing. */
  lemma DisplayFormSpec(name: string)
    ensures |DisplayForm(name)| == |name|
    ensures Lower(DisplayForm(name)) == Lower(name)
    ensures forall k :: 0 <= k < |name| ==> (IsSpace(DisplayForm(name)[k]) <==> IsSpace(name[k]))
    ensures IsStripped(name) ==> IsStripped(DisplayForm(name))
    ensures DisplayForm(DisplayForm(name)) == DisplayForm(name)
  {
    TitleCase(name);
    TitleIdempotent(name);
  }

  /** The dedup key of a label: trimmed and lower-cased. */
  function Key(name: string): (k: string)
    ensures |k| == |Strip(name)|
    ensures k == [] <==> IsBlank(name)
  {
    StripSpec(name);
    Lower(Strip(name))
  }

  /** The casing policy never changes a label's key, whether it is applied
      to the trimmed label or to the label with its surrounding white space. */
  lemma KeyOfDisplayForm(name: string)
    ensures Key(DisplayForm(name)) == Key(name)
  {
    var d := DisplayForm(name);
    DisplayFormSpec(name);
    SameSpacesStrip(d, name);
    var x, y := StripStart(name), StripEnd(name);
    assert Strip(d) == d[x..y] && Strip(name) == name[x..y];
    forall k | 0 <= k < y - x ensures Lower(d[x..y])[k] == Lower(name[x..y])[k] {
      assert Lower(d)[x + k] == Lower(name)[x + k];
    }
  }

  /** Short all-capital labels are kept as they are. */
  lemma AcronymsKept()
    ensures DisplayForm("SALES") == "SALES" && DisplayForm("IT") == "IT"
  {
  }

  /** Any other label is title-cased. */
  lemma MixedCaseTitled()
    ensures DisplayForm("B2b") == "B2B" && DisplayForm("HoReCa") == "Horeca"
  {
  }

  /** All-capital labels longer than five characters are title-cased too. */
  lemma LongCapitalsTitled()
    ensures DisplayForm("TELECOM") == "Telecom"
  {
  }
}
