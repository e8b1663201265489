/**
 * The `Results` component: a report shown as display groups. The resume and
 * job skill groups are always there; the missing-skills group and the
 * recommendations group appear only when their lists are non-empty, and each
 * recommendation becomes a link labelled with its title.
 */
module Results {
  import opened Contract

  datatype Item = Entry(text: string) | Link(caption: string, href: string)
  datatype GroupKind = ResumeSkillsGroup | JobSkillsGroup | MissingSkillsGroup | RecommendationsGroup
  datatype Group = Group(kind: GroupKind, items: seq<Item>)

  /** One list entry per skill, in order. */
  function SkillItems(skills: seq<string>): (items: seq<Item>)
    ensures |items| == |skills|
    ensures forall i :: 0 <= i < |skills| ==> items[i] == Entry(skills[i])
  {
    seq(|skills|, i requires 0 <= i < |skills| => Entry(skills[i]))
  }

  /** One link per recommendation, labelled with its title, in order. */
  function CourseLinks(recs: seq<Recommendation>): (items: seq<Item>)
    ensures |items| == |recs|
    ensures forall i :: 0 <= i < |recs| ==> items[i] == Link(recs[i].title, recs[i].url)
  {
    seq(|recs|, i requires 0 <= i < |recs| => Link(recs[i].title, recs[i].url))
  }

  /** The groups `Results` renders for a report, top to bottom. */
  function Render(r: Report): (view: seq<Group>)
    ensures 2 <= |view| <= 4
    ensures forall g :: g in view && g.items == [] ==> g.kind == ResumeSkillsGroup || g.kind == JobSkillsGroup
  {
    [Group(ResumeSkillsGroup, SkillItems(r.resumeSkills)),
     Group(JobSkillsGroup, SkillItems(r.jdSkills))]
    + (if |r.missingSkills| > 0 then [Group(MissingSkillsGroup, SkillItems(r.missingSkills))] else [])
    + (if |r.recommendations| > 0 then [Group(RecommendationsGroup, CourseLinks(r.recommendations))] else [])
  }

  /** The view shows a group of this kind. */
  predicate Shows(view: seq<Group>, kind: GroupKind) {
    exists g :: g in view && g.kind == kind
  }

  /** The items of the first group of a kind, or none when the view has no such group. */
  function ItemsOf(view: seq<Group>, kind: GroupKind): (items: seq<Item>)
    ensures !Shows(view, kind) ==> items == []
  {
    if view == [] then []
    else if view[0].kind == kind then view[0].items
    else ItemsOf(view[1..], kind)
  }

  /** The skill names of a list of entries. */
  function Texts(items: seq<Item>): (skills: seq<string>)
    ensures |skills| == |items|
  {
    seq(|items|, i requires 0 <= i < |items| => if items[i].Entry? then items[i].text else items[i].caption)
  }

  /** The recommendations of a list of links. */
  function Courses(items: seq<Item>): (recs: seq<Recommendation>)
    ensures |recs| == |items|
  {
    seq(|items|, i requires 0 <= i < |items| =>
      if items[i].Link? then Recommendation(items[i].caption, items[i].href) else Recommendation(items[i].text, ""))
  }

  /** Reads a report back off the screen. */
  function ReadBack(view: seq<Group>): Report {
    Report(
      Texts(ItemsOf(view, ResumeSkillsGroup)),
      Texts(ItemsOf(view, JobSkillsGroup)),
      Texts(ItemsOf(view, MissingSkillsGroup)),
      Courses(ItemsOf(view, RecommendationsGroup)))
  }

  /**
   * The two skill groups are always shown, in that order; the missing-skills
   * and recommendations groups exactly when their lists are non-empty; each
   * kind at most once.
   */
  lemma RenderGroups(r: Report)
    ensures |Render(r)| >= 2
    ensures Render(r)[0].kind == ResumeSkillsGroup && Render(r)[1].kind == JobSkillsGroup
    ensures Shows(Render(r), MissingSkillsGroup) <==> |r.missingSkills| > 0
    ensures Shows(Render(r), RecommendationsGroup) <==> |r.recommendations| > 0
    ensures forall i, j :: 0 <= i < j < |Render(r)| ==> Render(r)[i].kind != Render(r)[j].kind
  {
    var v := Render(r);
    if |r.missingSkills| > 0 {
      assert v[2].kind == MissingSkillsGroup;
    }
    if |r.recommendations| > 0 {
      assert v[|v| - 1].kind == RecommendationsGroup;
    }
  }

  /** Nothing of the report is lost on screen: reading the view back gives the report. */
  lemma RenderRoundTrip(r: Report)
    ensures ReadBack(Render(r)) == r
  {
    var v := Render(r);
    RenderGroups(r);
    assert ItemsOf(v, ResumeSkillsGroup) == SkillItems(r.resumeSkills);
    assert ItemsOf(v, JobSkillsGroup) == SkillItems(r.jdSkills) by {
      assert v[1..][0] == v[1];
    }
    assert ItemsOf(v, MissingSkillsGroup) == SkillItems(r.missingSkills) by {
      if |r.missingSkills| > 0 {
        assert ItemsOf(v, MissingSkillsGroup) == ItemsOf(v[1..], MissingSkillsGroup);
        assert v[1..][1..] == v[2..];
        assert ItemsOf(v[1..], MissingSkillsGroup) == ItemsOf(v[2..], MissingSkillsGroup);
        assert v[2..][0] == v[2];
      }
    }
    assert ItemsOf(v, RecommendationsGroup) == CourseLinks(r.recommendations) by {
      if |r.recommendations| > 0 {
        ItemsOfLast(v, RecommendationsGroup);
      }
    }
    assert Texts(SkillItems(r.resumeSkills)) == r.resumeSkills;
    assert Texts(SkillItems(r.jdSkills)) == r.jdSkills;
    assert Texts(SkillItems(r.missingSkills)) == r.missingSkills;
    assert Courses(CourseLinks(r.recommendations)) == r.recommendations;
  }

  lemma {:induction false} ItemsOfLast(view: seq<Group>, kind: GroupKind)
    requires view != [] && view[|view| - 1].kind == kind
    requires forall i :: 0 <= i < |view| - 1 ==> view[i].kind != kind
    ensures ItemsOf(view, kind) == view[|view| - 1].items
  {
    if |view| > 1 {
      ItemsOfLast(view[1..], kind);
    }
  }

  /** A report with one resume skill, two job skills, one gap and one course. */
  lemma SingleGapScenario()
    ensures var v := Render(Report(["Python"], ["Python", "SQL"], ["SQL"],
                                   [Recommendation("SQL 101", "https://example.com/sql")]));
      && |v| == 4
      && |v[0].items| == 1 && |v[1].items| == 2 && |v[2].items| == 1
      && v[3] == Group(RecommendationsGroup, [Link("SQL 101", "https://example.com/sql")])
  {
    var r := Report(["Python"], ["Python", "SQL"], ["SQL"],
                    [Recommendation("SQL 101", "https://example.com/sql")]);
    assert CourseLinks(r.recommendations) == [Link("SQL 101", "https://example.com/sql")];
  }
}
