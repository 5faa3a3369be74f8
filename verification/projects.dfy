/**
 The technology filter of the Projects page: the sorted list of distinct
 tags, the per-tag counts shown on the filter buttons, the project filter,
 and the add/remove toggle on the selected tags.
 */
module Projects {
  import opened Js
  import opened Seqs
  import opened TagOrder

  /** A project record as the page's static data describes it. */
  datatype Project = Project(
    id: int,
    title: string,
    description: string,
    image: string,
    technologies: seq<string>,
    github: Option<string>,
    live: Option<string>,
    slides: seq<string>)

  /** Some project lists tag `t`. */
  ghost predicate Listed(ps: seq<Project>, t: string) {
    exists i :: 0 <= i < |ps| && t in ps[i].technologies
  }

  /** `projects.flatMap(p => p.technologies)`. */
  function AllTags(ps: seq<Project>): (r: seq<string>)
    ensures forall t :: t in r <==> Listed(ps, t)
  {
    if |ps| == 0 then []
    else
      var init := ps[..|ps| - 1];
      var r := AllTags(init) + ps[|ps| - 1].technologies;
      assert forall t :: Listed(ps, t) <==> Listed(init, t) || t in ps[|ps| - 1].technologies by {
        forall t
          ensures Listed(ps, t) <==> Listed(init, t) || t in ps[|ps| - 1].technologies
        {
          if Listed(ps, t) {
            var i :| 0 <= i < |ps| && t in ps[i].technologies;
            if i < |ps| - 1 {
              assert init[i] == ps[i];
            }
          }
          if Listed(init, t) {
            var i :| 0 <= i < |init| && t in init[i].technologies;
            assert ps[i] == init[i];
          }
        }
      }
      r
  }

  /** `allTechnologies`: the distinct tags of all projects, in ascending order. */
  function AllTechnologies(ps: seq<Project>): (r: seq<string>)
    ensures StrictlySorted(r)
    ensures Distinct(r)
    ensures forall t :: t in r <==> Listed(ps, t)
  {
    var r := Sort(Dedup(AllTags(ps)));
    SortedDistinct(r);
    r
  }

  /** How often `t` occurs, counting every project's list with repetitions. */
  function Occurrences(ps: seq<Project>, t: string): nat {
    if |ps| == 0 then 0
    else Occurrences(ps[..|ps| - 1], t) + multiset(ps[|ps| - 1].technologies)[t]
  }

  /** A tag occurs at least once exactly when some project lists it. */
  lemma {:induction false} OccurrencesPositive(ps: seq<Project>, t: string)
    ensures Occurrences(ps, t) > 0 <==> Listed(ps, t)
  {
    if |ps| > 0 {
      OccurrencesPositive(ps[..|ps| - 1], t);
      assert AllTags(ps) == AllTags(ps[..|ps| - 1]) + ps[|ps| - 1].technologies;
    }
  }

  /** `techCounts`: for every project and every tag it lists, `counts[tech] = (counts[tech] || 0) + 1`. */
  method TechCounts(ps: seq<Project>) returns (counts: map<string, nat>)
    ensures forall t :: t in counts <==> Listed(ps, t)
    ensures forall t :: t in counts ==> counts[t] == Occurrences(ps, t)
  {
    counts := map[];
    var i := 0;
    while i < |ps|
      invariant 0 <= i <= |ps|
      invariant forall t :: t in counts <==> Occurrences(ps[..i], t) > 0
      invariant forall t :: t in counts ==> counts[t] == Occurrences(ps[..i], t)
    {
      var techs := ps[i].technologies;
      var j := 0;
      while j < |techs|
        invariant 0 <= j <= |techs|
        invariant forall t :: t in counts <==> Occurrences(ps[..i], t) + multiset(techs[..j])[t] > 0
        invariant forall t :: t in counts ==> counts[t] == Occurrences(ps[..i], t) + multiset(techs[..j])[t]
      {
        var tech := techs[j];
        var previous := if tech in counts then counts[tech] else 0;
        counts := counts[tech := previous + 1];
        assert techs[..j + 1] == techs[..j] + [tech];
        j := j + 1;
      }
      assert techs[..j] == techs;
      assert ps[..i + 1][..i] == ps[..i];
      i := i + 1;
    }
    assert ps[..i] == ps;
    forall t
      ensures t in counts <==> Listed(ps, t)
    {
      OccurrencesPositive(ps, t);
    }
  }

  /** Every tag offered as a filter button has a count of at least one. */
  lemma OfferedTagsCounted(ps: seq<Project>, t: string)
    requires t in AllTechnologies(ps)
    ensures Occurrences(ps, t) >= 1
  {
    OccurrencesPositive(ps, t);
  }

  /** `selectedTech.some(tech => project.technologies.includes(tech))`. */
  predicate Matches(p: Project, selected: seq<string>) {
    exists t :: t in selected && t in p.technologies
  }

  /** `projects.filter(p => Matches(p, selected))`. */
  function Keep(ps: seq<Project>, selected: seq<string>): (r: seq<Project>)
    ensures IsSubseq(r, ps)
    ensures forall p :: multiset(r)[p] == if Matches(p, selected) then multiset(ps)[p] else 0
  {
    if |ps| == 0 then []
    else
      var init := ps[..|ps| - 1];
      var p := ps[|ps| - 1];
      var k := Keep(init, selected);
      assert ps == init + [p];
      if Matches(p, selected) then
        SubseqAppend(k, init, p);
        k + [p]
      else
        SubseqExtend(k, init, p);
        k
  }

  /** `filteredProjects`: all projects when nothing is selected, otherwise the
      projects sharing at least one tag with the selection, in their order. */
  function FilteredProjects(selected: seq<string>, ps: seq<Project>): (r: seq<Project>)
    ensures |selected| == 0 ==> r == ps
    ensures |selected| > 0 ==> IsSubseq(r, ps)
    ensures |selected| > 0 ==> forall p :: p in r <==> p in ps && Matches(p, selected)
    ensures |selected| > 0 ==> forall p :: multiset(r)[p] == if Matches(p, selected) then multiset(ps)[p] else 0
  {
    if |selected| > 0 then
      var r := Keep(ps, selected);
      assert forall p :: p in r <==> multiset(r)[p] > 0;
      r
    else ps
  }

  /** Selecting a single tag keeps exactly the projects that list it. */
  lemma FilterSingleTag(t: string, ps: seq<Project>)
    ensures forall p :: p in FilteredProjects([t], ps) <==> p in ps && t in p.technologies
  {
    assert forall p :: Matches(p, [t]) <==> t in p.technologies by {
      forall p
        ensures Matches(p, [t]) <==> t in p.technologies
      {
        if t in p.technologies {
          assert t in [t];
        }
      }
    }
  }

  /** The example of the filter's description: two projects tagged React and Go,
      selecting React keeps only the first. */
  lemma FilterExample(a: Project, b: Project)
    requires a.technologies == ["React"] && b.technologies == ["Go"]
    ensures FilteredProjects(["React"], [a, b]) == [a]
  {
    var react: string := "React";
    assert react in [react] && react in a.technologies;
    assert !Matches(b, [react]);
    assert [a, b][..1] == [a];
    assert [a][..0] == [];
    assert Keep([a], [react]) == [a];
  }

  /** With a non-empty selection, adding a tag never drops a project: the old
      result is an order-preserving subsequence of the new one. */
  lemma {:induction false} FilterGrowsWithSelection(selected: seq<string>, t: string, ps: seq<Project>)
    requires |selected| > 0
    ensures IsSubseq(FilteredProjects(selected, ps), FilteredProjects(selected + [t], ps))
    ensures forall p :: p in FilteredProjects(selected, ps) ==> p in FilteredProjects(selected + [t], ps)
  {
    KeepGrows(selected, t, ps);
    SubseqMembers(Keep(ps, selected), Keep(ps, selected + [t]));
  }

  lemma {:induction false} KeepGrows(selected: seq<string>, t: string, ps: seq<Project>)
    ensures IsSubseq(Keep(ps, selected), Keep(ps, selected + [t]))
  {
    if |ps| > 0 {
      var init := ps[..|ps| - 1];
      var p := ps[|ps| - 1];
      KeepGrows(selected, t, init);
      var k, k' := Keep(init, selected), Keep(init, selected + [t]);
      if Matches(p, selected) {
        var u :| u in selected && u in p.technologies;
        assert u in selected + [t];
        SubseqAppend(k, k', p);
      } else if Matches(p, selected + [t]) {
        SubseqExtend(k, k', p);
      }
    }
  }

  /** `toggleTech`: drop every occurrence of a selected tag, otherwise append it. */
  function ToggleTech(selected: seq<string>, tech: string): (r: seq<string>)
    ensures tech in r <==> tech !in selected
    ensures forall x :: x != tech ==> multiset(r)[x] == multiset(selected)[x]
    ensures tech in selected ==> IsSubseq(r, selected)
    ensures tech !in selected ==> |r| == |selected| + 1 && r[..|selected|] == selected && r[|selected|] == tech
  {
    if tech in selected then
      var r := Without(selected, tech);
      assert tech !in r by {
        assert multiset(r)[tech] == 0;
      }
      r
    else
      var r := selected + [tech];
      assert r[..|selected|] == selected;
      r
  }

  /** Toggling keeps the selection free of duplicates. */
  lemma ToggleKeepsDistinct(selected: seq<string>, tech: string)
    requires Distinct(selected)
    ensures Distinct(ToggleTech(selected, tech))
  {
    if tech in selected {
      SubseqDistinct(ToggleTech(selected, tech), selected);
    }
  }

  /** Toggling an unselected tag twice restores the selection. */
  lemma ToggleTwice(selected: seq<string>, tech: string)
    requires tech !in selected
    ensures ToggleTech(ToggleTech(selected, tech), tech) == selected
  {
    var s := selected + [tech];
    assert s[..|s| - 1] == selected;
    WithoutAbsent(selected, tech);
  }
}
