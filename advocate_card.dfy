/** One advocate's card in the grid: initials, the specialty list that
    collapses to three, the toggle button and the call link. */
module AdvocateCard {
  import opened Wrappers
  import opened Sequences
  import opened Text
  import opened Types
  import Phone

  /** How many specialties a collapsed card shows. */
  const CollapsedCount := 3

  /** The specialties the card lists: all of them when expanded, else the first three. */
  function VisibleSpecialties(specialties: seq<string>, isExpanded: bool): (r: seq<string>)
    ensures isExpanded ==> r == specialties
    ensures !isExpanded ==> r <= specialties && |r| == Min(CollapsedCount, |specialties|)
  {
    if isExpanded then specialties
    else if |specialties| <= CollapsedCount then specialties
    else specialties[..CollapsedCount]
  }

  /** The toggle button: its visible text, its accessible label and the id it reports when clicked. */
  datatype Toggle = Toggle(text: string, ariaLabel: string, onClickId: int)

  /** The toggle appears only when there are more than three specialties. */
  function ToggleButton(a: Advocate, isExpanded: bool): Option<Toggle>
  {
    var n := |a.specialties|;
    if n > CollapsedCount then
      var hidden := Decimal(n - CollapsedCount);
      Some(if isExpanded
           then Toggle("Show less", "Show fewer specialties", a.id)
           else Toggle("+" + hidden + " more", "Show " + hidden + " more specialties", a.id))
    else
      None
  }

  /** The first character of a name, or nothing for an empty one. */
  function FirstChar(s: string): (r: string)
    ensures |r| <= 1 && r <= s
    ensures |r| == 1 <==> s != []
  {
    if s == [] then [] else [s[0]]
  }

  /** The avatar's initials: the first character of each non-empty name, in order. */
  function Initials(a: Advocate): (r: string)
    ensures |r| == (if a.firstName == [] then 0 else 1) + (if a.lastName == [] then 0 else 1)
    ensures a.firstName != [] ==> r[0] == a.firstName[0]
    ensures a.lastName != [] ==> r[|r| - 1] == a.lastName[0]
  {
    FirstChar(a.firstName) + FirstChar(a.lastName)
  }

  /** The call link's target and accessible label. */
  datatype CallLink = CallLink(href: string, ariaLabel: string)

  /** The call link dials the stored number and reads out the formatted one. */
  function CallLinkOf(a: Advocate): CallLink
  {
    CallLink("tel:" + Decimal(a.phoneNumber),
             "Call " + a.firstName + " " + a.lastName + " at " + Phone.FormatPhoneNumber(a.phoneNumber))
  }

  /** The toggle is offered exactly when collapsing hides a specialty, it
      reports the advocate's own id, and the collapsed list followed by the
      hidden ones is the whole list. */
  lemma ToggleIffSomethingHidden(a: Advocate, isExpanded: bool)
    ensures ToggleButton(a, isExpanded).Some? <==> VisibleSpecialties(a.specialties, false) != a.specialties
    ensures ToggleButton(a, isExpanded).Some? ==> ToggleButton(a, isExpanded).value.onClickId == a.id
    ensures VisibleSpecialties(a.specialties, false) + a.specialties[|VisibleSpecialties(a.specialties, false)|..]
         == a.specialties
  {
    var v := VisibleSpecialties(a.specialties, false);
    assert v + a.specialties[|v|..] == a.specialties;
  }

  /** Expanding shows every specialty, and the two states differ exactly when
      there is a toggle to switch between them. */
  lemma ExpandShowsAll(a: Advocate)
    ensures VisibleSpecialties(a.specialties, true) == a.specialties
    ensures ToggleButton(a, true).Some? <==> ToggleButton(a, false).Some?
    ensures ToggleButton(a, false).Some? <==>
            VisibleSpecialties(a.specialties, true) != VisibleSpecialties(a.specialties, false)
  {
    ToggleIffSomethingHidden(a, false);
  }

  /** The collapsed label "+N more" names how many specialties are hidden:
      reading the number back out of the label gives that count. */
  lemma CollapsedLabelCountsHidden(a: Advocate)
    requires ToggleButton(a, false).Some?
    ensures var text := ToggleButton(a, false).value.text;
            var hidden := |a.specialties| - |VisibleSpecialties(a.specialties, false)|;
            && hidden >= 1
            && |text| >= 7 && text[..1] == "+" && text[|text| - 5..] == " more"
            && (forall i :: 1 <= i < |text| - 5 ==> IsDigit(text[i]))
            && DigitsValue(text[1..|text| - 5]) == hidden
  {
    var n := |a.specialties| - CollapsedCount;
    var d := Decimal(n);
    var text := ToggleButton(a, false).value.text;
    assert text == "+" + d + " more";
    assert text[1..|text| - 5] == d;
    DigitsRoundTrip(n);
  }

  /** The call link's number, once its punctuation is dropped, is the one the link dials. */
  lemma CallLinkAgrees(a: Advocate)
    requires a.phoneNumber >= 0
    ensures var link := CallLinkOf(a);
            link.href[4..] == Phone.StripSeparators(Phone.FormatPhoneNumber(a.phoneNumber))
  {
    Phone.FormatOnlyAddsSeparators(a.phoneNumber);
  }
}
