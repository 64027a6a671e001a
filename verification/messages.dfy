/** The texts the control produces: its one validation message and the page-summary link. */
module Messages {
  import opened Text

  const SelectPrefix := "Select "

  /** `'Select ' + firstCharLowerCase(fieldIdentifier)`. */
  function NothingSelectedMessage(fieldIdentifier: string): (r: string)
    ensures |r| == |SelectPrefix| + |fieldIdentifier|
  {
    SelectPrefix + FirstCharLowerCase(fieldIdentifier)
  }

  /**
   * The message is "Select " followed by the field identifier, whose first
   * character is lower-cased and whose other characters are kept.
   */
  lemma NothingSelectedMessageSpec(fieldIdentifier: string)
    ensures var r := NothingSelectedMessage(fieldIdentifier);
      && |r| == |SelectPrefix| + |fieldIdentifier|
      && r[..|SelectPrefix|] == SelectPrefix
      && (|fieldIdentifier| > 0 ==> r[|SelectPrefix|] == LowerChar(fieldIdentifier[0]))
      && forall i :: |SelectPrefix| < i < |r| ==> r[i] == fieldIdentifier[i - |SelectPrefix|]
  {
    var p := SelectPrefix;
    var l := FirstCharLowerCase(fieldIdentifier);
    var r := p + l;
    assert r[..|p|] == p;
    assert forall i :: |p| <= i < |r| ==> r[i] == l[i - |p|];
  }

  const HrefStart := "<a href='#"
  const Apostrophe := "'"
  const OnClickStart := " onclick=\"javascript: let component = '"
  const OnClickEnd := "'; component.scrollIntoView; return false;\">"

  /** Opening tag of the summary link: it targets, and scrolls to, the control's container. */
  function LinkOpening(containerLabel: string): string
  {
    HrefStart + containerLabel + Apostrophe + OnClickStart + containerLabel + OnClickEnd
  }

  const LinkClosing := "</a>"

  /** The `errormessage` the page validator publishes for an invalid control. */
  function SummaryLink(containerLabel: string, text: string): (r: string)
    ensures |r| == |LinkOpening(containerLabel)| + |text| + |LinkClosing|
    ensures r[..|LinkOpening(containerLabel)|] == LinkOpening(containerLabel)
    ensures r[|LinkOpening(containerLabel)|..|r| - |LinkClosing|] == text
    ensures r[|r| - |LinkClosing|..] == LinkClosing
  {
    var r := LinkOpening(containerLabel) + text + LinkClosing;
    assert r[|LinkOpening(containerLabel)|..|r| - |LinkClosing|] == text;
    r
  }

  /** The message between the opening and closing tags of a summary link. */
  function LinkText(containerLabel: string, link: string): string
    requires |LinkOpening(containerLabel)| + |LinkClosing| <= |link|
  {
    link[|LinkOpening(containerLabel)|..|link| - |LinkClosing|]
  }

  /** The link's target is the control's container, `href='#<containerLabel>'`. */
  lemma SummaryLinkTarget(containerLabel: string, text: string)
    ensures SummaryLink(containerLabel, text)[..|HrefStart + containerLabel + Apostrophe|]
      == HrefStart + containerLabel + Apostrophe
  {
    var head := HrefStart + containerLabel + Apostrophe;
    var opening := LinkOpening(containerLabel);
    assert opening == head + (OnClickStart + containerLabel + OnClickEnd);
    assert opening[..|head|] == head;
    assert SummaryLink(containerLabel, text)[..|opening|] == opening;
  }

  /** The message can be read back out of the link: different messages give different links. */
  lemma SummaryLinkRoundTrip(containerLabel: string, text: string)
    ensures LinkText(containerLabel, SummaryLink(containerLabel, text)) == text
  {
  }
}
