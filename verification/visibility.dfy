/**
 The About page's record of which timeline entries have scrolled into view:
 three lists of entry indices, one per timeline section, updated by the
 IntersectionObserver callback. Viewport geometry is abstract: an entry
 arrives already marked as intersecting or not.
 */
module Visibility {
  import opened Js
  import opened Seqs

  /** `visibleExperiences`, `visibleEducation` and `visibleAwards`. */
  datatype Visibility = Visibility(experience: seq<Number>, education: seq<Number>, awards: seq<Number>)

  const Initial: Visibility := Visibility([], [], [])

  const ExperienceSection: string := "experience"
  const EducationSection: string := "education"
  const AwardsSection: string := "awards"

  /** The section names the callback's `switch` recognises. */
  predicate Known(section: string) {
    section == ExperienceSection || section == EducationSection || section == AwardsSection
  }

  /** The list kept for a section; an unknown section has none. */
  function List(v: Visibility, section: string): (r: seq<Number>)
    ensures !Known(section) ==> r == []
  {
    if section == ExperienceSection then v.experience
    else if section == EducationSection then v.education
    else if section == AwardsSection then v.awards
    else []
  }

  /** An observer entry as the callback reads it: whether it intersects, and
      the target's `data-index` and `data-section` attributes (`None` when absent). */
  datatype Entry = Entry(isIntersecting: bool, dataIndex: Option<string>, dataSection: Option<string>)

  /** `parseInt(getAttribute('data-index') || '0')`: a missing or empty attribute reads as 0. */
  function EntryIndex(attribute: Option<string>): (r: Number)
    ensures !Truthy(attribute) ==> r == Int(0)
    ensures Truthy(attribute) ==> r == ParseInt(attribute.value)
  {
    ParseDecimal(0);
    ParseInt(Or(attribute, Some("0")).value)
  }

  /** `[...new Set([...prev, index])]`. */
  function Record(prev: seq<Number>, index: Number): (r: seq<Number>)
    ensures Distinct(r)
    ensures forall x :: x in r <==> x in prev || x == index
    ensures Distinct(prev) ==> prev <= r && |r| <= |prev| + 1
    ensures Distinct(prev) && index in prev ==> r == prev
    ensures Distinct(prev) && index !in prev ==> r == prev + [index]
  {
    DedupAppend(prev, index);
    Dedup(prev + [index])
  }

  lemma DedupAppend(prev: seq<Number>, index: Number)
    ensures Distinct(prev) ==> Dedup(prev + [index]) == if index in prev then prev else prev + [index]
  {
    var s := prev + [index];
    assert s[..|s| - 1] == prev;
    if Distinct(prev) {
      DedupDistinct(prev);
    }
  }

  /** Recording an index twice is the same as recording it once. */
  lemma RecordIdempotent(prev: seq<Number>, index: Number)
    ensures Record(Record(prev, index), index) == Record(prev, index)
  {
  }

  /** Replace the list of a known section, leaving the other two alone. */
  function WithList(v: Visibility, section: string, list: seq<Number>): (r: Visibility)
    requires Known(section)
    ensures forall s :: List(r, s) == if s == section then list else List(v, s)
  {
    if section == ExperienceSection then v.(experience := list)
    else if section == EducationSection then v.(education := list)
    else v.(awards := list)
  }

  /** The observer callback for one entry: `switch (section)` over the three names. */
  function Observe(v: Visibility, e: Entry): (r: Visibility)
    ensures !e.isIntersecting || e.dataSection.None? || !Known(e.dataSection.value) ==> r == v
    ensures forall s :: (e.dataSection != Some(s) || !e.isIntersecting) ==> List(r, s) == List(v, s)
    ensures e.isIntersecting && e.dataSection.Some? && Known(e.dataSection.value) ==>
      List(r, e.dataSection.value) == Record(List(v, e.dataSection.value), EntryIndex(e.dataIndex))
  {
    if !e.isIntersecting || e.dataSection.None? || !Known(e.dataSection.value) then v
    else
      var section := e.dataSection.value;
      WithList(v, section, Record(List(v, section), EntryIndex(e.dataIndex)))
  }

  /** The entry is intersecting and names known section `s` and index `x`. */
  predicate Reports(e: Entry, s: string, x: Number) {
    e.isIntersecting && e.dataSection == Some(s) && Known(s) && EntryIndex(e.dataIndex) == x
  }

  /** Some entry of the batch reports section `s` and index `x`. */
  predicate Reported(entries: seq<Entry>, s: string, x: Number) {
    |entries| > 0 && (Reported(entries[..|entries| - 1], s, x) || Reports(entries[|entries| - 1], s, x))
  }

  /** `Reported` is "some entry reports it". */
  lemma {:induction false} ReportedSome(entries: seq<Entry>, s: string, x: Number)
    ensures Reported(entries, s, x) <==> exists k :: 0 <= k < |entries| && Reports(entries[k], s, x)
  {
    if |entries| > 0 {
      var front := entries[..|entries| - 1];
      var last := |entries| - 1;
      ReportedSome(front, s, x);
      if Reported(front, s, x) {
        var k :| 0 <= k < |front| && Reports(front[k], s, x);
        assert entries[k] == front[k];
      } else if Reports(entries[last], s, x) {
        assert 0 <= last < |entries|;
      } else {
        forall k | 0 <= k < |entries|
          ensures !Reports(entries[k], s, x)
        {
          if k < last {
            assert entries[k] == front[k];
          }
        }
      }
    }
  }

  /** `entries.forEach(...)`: the entries of one callback, in order. Afterwards
      a section's list holds exactly what it held before and what some entry
      of the batch reported for it. */
  function ObserveAll(v: Visibility, entries: seq<Entry>): (r: Visibility)
    ensures forall s, x :: x in List(r, s) <==> x in List(v, s) || Reported(entries, s, x)
  {
    if |entries| == 0 then v
    else Observe(ObserveAll(v, entries[..|entries| - 1]), entries[|entries| - 1])
  }

  /** No list holds an index twice. */
  predicate WellFormed(v: Visibility) {
    Distinct(v.experience) && Distinct(v.education) && Distinct(v.awards)
  }

  /** The page starts with three empty, hence duplicate-free, lists. */
  lemma InitialWellFormed()
    ensures WellFormed(Initial)
    ensures forall s :: List(Initial, s) == []
  {
  }

  /** Lists only grow: each old list is a prefix of the new one, and the lists stay duplicate-free. */
  lemma ObserveGrows(v: Visibility, e: Entry)
    requires WellFormed(v)
    ensures WellFormed(Observe(v, e))
    ensures forall s :: List(v, s) <= List(Observe(v, e), s)
  {
  }

  /** The same over a whole batch of entries. */
  lemma {:induction false} ObserveAllGrows(v: Visibility, entries: seq<Entry>)
    requires WellFormed(v)
    ensures WellFormed(ObserveAll(v, entries))
    ensures forall s :: List(v, s) <= List(ObserveAll(v, entries), s)
  {
    if |entries| > 0 {
      var mid := ObserveAll(v, entries[..|entries| - 1]);
      ObserveAllGrows(v, entries[..|entries| - 1]);
      ObserveGrows(mid, entries[|entries| - 1]);
      forall s
        ensures List(v, s) <= List(ObserveAll(v, entries), s)
      {
        PrefixTransitive(List(v, s), List(mid, s), List(ObserveAll(v, entries), s));
      }
    }
  }

  lemma PrefixTransitive(a: seq<Number>, b: seq<Number>, c: seq<Number>)
    requires a <= b && b <= c
    ensures a <= c
  {
    assert c[..|a|] == b[..|a|];
  }

  /** Once an index is in a section's list it stays there, whatever is observed later. */
  lemma {:induction false} SeenStaysSeen(v: Visibility, entries: seq<Entry>, s: string, x: Number)
    requires x in List(v, s)
    ensures x in List(ObserveAll(v, entries), s)
  {
    if |entries| > 0 {
      SeenStaysSeen(v, entries[..|entries| - 1], s, x);
    }
  }
}
