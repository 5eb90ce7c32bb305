/** A book description that is cut to its first 300 characters until the reader expands it.
    Descriptions come either as a string or as an object with a `value` field; anything else
    reads as the empty text. Lengths and cuts are in characters of the string. */
module DescriptionText {
  import opened Common

  /** The longest text shown in full while collapsed. */
  const MaxLength := 300

  /** The shapes a description arrives in. */
  datatype Description =
    | Plain(text: string)
    | Wrapped(value: Option<string>)
    | Missing

  /** `descText`: the string itself, the object's `value`, or `""` when there is none. */
  function DescText(d: Description): (text: string)
    ensures d.Plain? ==> text == d.text
    ensures d.Wrapped? && d.value.Some? ==> text == d.value.value
    ensures (d.Missing? || (d.Wrapped? && d.value.None?)) ==> text == ""
  {
    match d
    case Plain(s) => s
    case Wrapped(v) => if v.Some? then v.value else ""
    case Missing => ""
  }

  /** `isLong`: the text does not fit the collapsed view. */
  function IsLong(text: string): (long: bool)
    ensures long <==> |text| > MaxLength
  {
    |text| > MaxLength
  }

  /** `visibleText`: the whole text when expanded, otherwise its first 300 characters (all
      of it when it is shorter). */
  function VisibleText(text: string, expanded: bool): (v: string)
    ensures v <= text
    ensures |v| == if expanded || |text| <= MaxLength then |text| else MaxLength
    ensures (expanded || !IsLong(text)) ==> v == text
  {
    if expanded then text else text[..if |text| <= MaxLength then |text| else MaxLength]
  }

  /** The ellipsis marks a cut text. */
  function ShowsEllipsis(text: string, expanded: bool): (shown: bool)
    ensures shown <==> IsLong(text) && !expanded
    ensures shown <==> VisibleText(text, expanded) != text
  {
    IsLong(text) && !expanded
  }

  /** The link offered with a long text: "show more" while collapsed, "show less" while
      expanded; a short text has none. */
  function ToggleLabel(text: string, expanded: bool): (link: Option<string>)
    ensures link.Some? <==> IsLong(text)
    ensures link.Some? ==> (link.value == "show less" <==> expanded)
  {
    if !IsLong(text) then None
    else if expanded then Some("show less")
    else Some("show more")
  }

  /** `toggleExpanded`: flips the state. */
  function Toggle(expanded: bool): (e: bool)
    ensures e != expanded
  {
    !expanded
  }

  /** What the paragraph reads: the visible text, then the ellipsis when there is one. */
  function Rendered(text: string, expanded: bool): string {
    VisibleText(text, expanded) + if ShowsEllipsis(text, expanded) then "..." else ""
  }

  /** A long text reads as its first 300 characters and an ellipsis; following the link once
      shows it whole, and following it again brings the cut back. */
  lemma ToggleRoundTrip(text: string)
    requires IsLong(text)
    ensures Rendered(text, false) == text[..MaxLength] + "..."
    ensures Rendered(text, Toggle(false)) == text
    ensures Rendered(text, Toggle(Toggle(false))) == Rendered(text, false)
    ensures ToggleLabel(text, false) == Some("show more") && ToggleLabel(text, Toggle(false)) == Some("show less")
  {
  }

  /** A short text reads the same whichever the state, with no ellipsis and no link. */
  lemma ShortTextUnaffected(text: string, expanded: bool)
    requires !IsLong(text)
    ensures Rendered(text, expanded) == text
    ensures ToggleLabel(text, expanded).None?
  {
  }
}
