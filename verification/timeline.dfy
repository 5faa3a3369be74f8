/**
 A timeline section of the About page as the data it renders: per entry the
 `data-index`/`data-section` tags the visibility observer reads back, whether
 the entry is drawn revealed, and the heading and subtitle chosen by `||`
 fallback chains. Icons, classes and styles are presentation only.
 */
module Timeline {
  import opened Js
  import opened Visibility

  /** A timeline entry; the role/degree/title and company/institution/organization
      fields are optional because the three sections fill different ones. */
  datatype TimelineItem = TimelineItem(
    year: string,
    role: Option<string>,
    degree: Option<string>,
    title: Option<string>,
    company: Option<string>,
    institution: Option<string>,
    organization: Option<string>,
    description: string,
    icon: string,
    iconColor: string)

  /** `xs[0] || xs[1] || ... || xs[n-1]`: the first truthy operand, or the last
      operand when none is truthy. */
  function FirstTruthy(xs: seq<Option<string>>): (r: Option<string>)
    requires |xs| > 0
    ensures r in xs
    ensures Truthy(r) <==> exists i :: 0 <= i < |xs| && Truthy(xs[i])
    ensures forall i :: 0 <= i < |xs| && Truthy(xs[i]) && (forall j :: 0 <= j < i ==> !Truthy(xs[j])) ==> r == xs[i]
    ensures (forall i :: 0 <= i < |xs| ==> !Truthy(xs[i])) ==> r == xs[|xs| - 1]
  {
    if |xs| == 1 || Truthy(xs[0]) then xs[0]
    else
      var r := FirstTruthy(xs[1..]);
      assert forall i :: 1 <= i < |xs| ==> xs[i] == xs[1..][i - 1];
      r
  }

  /** `item.role || item.degree || item.title`. */
  function Heading(item: TimelineItem): (r: Option<string>)
    ensures r == FirstTruthy([item.role, item.degree, item.title])
  {
    Or(Or(item.role, item.degree), item.title)
  }

  /** `item.company || item.institution || item.organization`. */
  function Subtitle(item: TimelineItem): (r: Option<string>)
    ensures r == FirstTruthy([item.company, item.institution, item.organization])
  {
    Or(Or(item.company, item.institution), item.organization)
  }

  /** What one entry renders that the model cares about. */
  datatype RenderedItem = RenderedItem(
    dataIndex: string,
    dataSection: string,
    revealed: bool,
    heading: Option<string>,
    subtitle: Option<string>,
    year: string,
    description: string)

  /** The entry at position `index`; `visibleItems.includes(index)` decides the reveal. */
  function RenderItem(item: TimelineItem, index: nat, visibleItems: seq<Number>, section: string): RenderedItem {
    RenderedItem(Decimal(index), section, Int(index) in visibleItems,
                 Heading(item), Subtitle(item), item.year, item.description)
  }

  lemma ParseDecimalAll()
    ensures forall n: nat :: ParseInt(Decimal(n)) == Int(n)
  {
    forall n: nat
      ensures ParseInt(Decimal(n)) == Int(n)
    {
      ParseDecimal(n);
    }
  }

  /** `items.map((item, index) => ...)`: one entry per item, tagged with its
      position and section, revealed exactly when its position is visible. */
  function Render(items: seq<TimelineItem>, visibleItems: seq<Number>, section: string): (r: seq<RenderedItem>)
    ensures |r| == |items|
    ensures forall i :: 0 <= i < |r| ==> (r[i].revealed <==> Int(i) in visibleItems)
    ensures forall i :: 0 <= i < |r| ==> r[i].dataSection == section
    ensures forall i :: 0 <= i < |r| ==> Truthy(Some(r[i].dataIndex)) && ParseInt(r[i].dataIndex) == Int(i)
    ensures forall i :: 0 <= i < |r| ==> r[i].heading == Heading(items[i]) && r[i].subtitle == Subtitle(items[i])
  {
    ParseDecimalAll();
    seq(|items|, i requires 0 <= i < |items| => RenderItem(items[i], i, visibleItems, section))
  }

  /** The observer entry for a rendered timeline element. */
  function EntryFor(rendered: RenderedItem, isIntersecting: bool): Entry {
    Entry(isIntersecting, Some(rendered.dataIndex), Some(rendered.dataSection))
  }

  /** Closing the loop: when the element rendered for entry `i` of a section
      intersects, the observer records `i` for that section, the next render
      shows the entry revealed, and the other sections are untouched. */
  lemma RevealOnIntersect(v: Visibility, items: seq<TimelineItem>, section: string, i: nat)
    requires Known(section)
    requires i < |items|
    ensures var v' := Observe(v, EntryFor(Render(items, List(v, section), section)[i], true));
      && Render(items, List(v', section), section)[i].revealed
      && (forall s :: s != section ==> List(v', s) == List(v, s))
  {
    var tagged := Render(items, List(v, section), section)[i];
    assert EntryIndex(Some(tagged.dataIndex)) == Int(i);
  }

  /** An entry that is revealed stays revealed, whatever the observer sees later. */
  lemma RevealedStays(v: Visibility, entries: seq<Entry>, items: seq<TimelineItem>, section: string, i: nat)
    requires i < |items|
    requires Render(items, List(v, section), section)[i].revealed
    ensures Render(items, List(ObserveAll(v, entries), section), section)[i].revealed
  {
    SeenStaysSeen(v, entries, section, Int(i));
  }
}
