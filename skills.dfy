/**
 * frontend/src/pages/Skills.jsx: the grouping of the skill list by category
 * (a dictionary filled in one pass, its entries in insertion order) and the
 * search box, which filters the current grouping by skill name.
 */
module Skills {
  import opened Common

  /** A row of /skills/all. */
  datatype SkillRow = SkillRow(skillId: int, skillName: string, skillCategory: Option<string>, employeeCount: int)

  /** One entry of the `grouped` dictionary. */
  datatype Group = Group(category: string, skills: seq<SkillRow>)

  // ---------------------------------------------------------------------------
  // groupByCategory
  // ---------------------------------------------------------------------------

  /** `skill.skill_category || "Uncategorized"`: an absent or empty category is "Uncategorized". */
  function CategoryOf(skill: SkillRow): string {
    if skill.skillCategory.Some? && skill.skillCategory.value != "" then skill.skillCategory.value
    else "Uncategorized"
  }

  function CategoriesOf(data: seq<SkillRow>): (cs: seq<string>)
    ensures |cs| == |data|
    ensures forall i :: 0 <= i < |data| ==> cs[i] == CategoryOf(data[i])
  {
    seq(|data|, i requires 0 <= i < |data| => CategoryOf(data[i]))
  }

  lemma CategoriesOfSnoc(data: seq<SkillRow>)
    requires data != []
    ensures CategoriesOf(data) == CategoriesOf(data[..|data| - 1]) + [CategoryOf(data[|data| - 1])]
  {
    var n := |data| - 1;
    var cs, ps := CategoriesOf(data), CategoriesOf(data[..n]);
    forall i | 0 <= i < n
      ensures cs[i] == ps[i]
    {
      assert data[..n][i] == data[i];
    }
  }

  /** The keys of the dictionary, in insertion order. */
  function Categories(groups: seq<Group>): (cs: seq<string>)
    ensures |cs| == |groups|
    ensures forall i :: 0 <= i < |groups| ==> cs[i] == groups[i].category
  {
    seq(|groups|, i requires 0 <= i < |groups| => groups[i].category)
  }

  /** The index of the entry of `category` in the dictionary, if it has one. */
  function FindGroup(groups: seq<Group>, category: string): (k: Option<nat>)
    ensures k.None? <==> forall i :: 0 <= i < |groups| ==> groups[i].category != category
    ensures k.Some? ==> (k.value < |groups| && groups[k.value].category == category
      && forall i :: 0 <= i < k.value ==> groups[i].category != category)
    decreases |groups|
  {
    if groups == [] then None
    else if groups[0].category == category then Some(0)
    else
      var rest := FindGroup(groups[1..], category);
      if rest.None? then None else Some(rest.value + 1)
  }

  /** One forEach step: create the entry when it is missing, then push. */
  function Place(groups: seq<Group>, skill: SkillRow): seq<Group> {
    var c := CategoryOf(skill);
    var k := FindGroup(groups, c);
    if k.None? then groups + [Group(c, [skill])]
    else groups[k.value := Group(c, groups[k.value].skills + [skill])]
  }

  function Grouping(data: seq<SkillRow>): seq<Group>
    decreases |data|
  {
    if data == [] then [] else Place(Grouping(data[..|data| - 1]), data[|data| - 1])
  }

  /** groupByCategory's forEach. */
  method GroupByCategory(data: seq<SkillRow>) returns (grouped: seq<Group>)
    ensures grouped == Grouping(data)
  {
    grouped := [];
    var i := 0;
    while i < |data|
      invariant 0 <= i <= |data|
      invariant grouped == Grouping(data[..i])
    {
      var skill := data[i];
      var category := CategoryOf(skill);
      var k := FindGroup(grouped, category);
      ghost var before := grouped;
      if k.None? {
        grouped := grouped + [Group(category, [])];
        k := Some(|grouped| - 1);
      }
      grouped := grouped[k.value := Group(category, grouped[k.value].skills + [skill])];
      assert [] + [skill] == [skill];
      assert grouped == Place(before, skill);
      assert data[..i + 1][..i] == data[..i];
      i := i + 1;
    }
    assert data[..i] == data;
  }

  /** The skills of `data` in category `c`, in input order (InCategoryCounts: each as often as listed). */
  function InCategory(data: seq<SkillRow>, c: string): (r: seq<SkillRow>)
    ensures forall k :: 0 <= k < |r| ==> CategoryOf(r[k]) == c
    ensures forall k :: 0 <= k < |data| && CategoryOf(data[k]) == c ==> data[k] in r
    ensures IsSubsequence(r, data)
    ensures (forall k :: 0 <= k < |data| ==> CategoryOf(data[k]) != c) ==> r == []
    decreases |data|
  {
    if data == [] then []
    else
      var n := |data| - 1;
      var rest := InCategory(data[..n], c);
      assert forall k :: 0 <= k < n ==> data[k] == data[..n][k];
      if CategoryOf(data[n]) == c then
        assert (rest + [data[n]])[..|rest|] == rest;
        rest + [data[n]]
      else
        rest
  }

  /** A skill of category `c` is listed under `c` as often as in `data`; any other skill not at all. */
  lemma {:induction false} InCategoryCounts(data: seq<SkillRow>, c: string)
    ensures forall x {:trigger multiset(InCategory(data, c))[x]} ::
      multiset(InCategory(data, c))[x] == if CategoryOf(x) == c then multiset(data)[x] else 0
    decreases |data|
  {
    if data != [] {
      var n := |data| - 1;
      InCategoryCounts(data[..n], c);
      FilterCountStep(data[..n], data[n], InCategory(data[..n], c), (x: SkillRow) => CategoryOf(x) == c);
      assert data == data[..n] + [data[n]];
    }
  }

  /** One step adds the skill's category as a new last key exactly when it is not yet a key. */
  lemma PlaceCategories(groups: seq<Group>, skill: SkillRow)
    ensures FindGroup(groups, CategoryOf(skill)).None? ==>
      Categories(Place(groups, skill)) == Categories(groups) + [CategoryOf(skill)]
    ensures FindGroup(groups, CategoryOf(skill)).Some? ==>
      Categories(Place(groups, skill)) == Categories(groups)
  {
  }

  /** The dictionary's keys are the distinct categories, in the order of their first appearance. */
  lemma {:induction false} GroupingCategories(data: seq<SkillRow>)
    ensures Categories(Grouping(data)) == Distinct(CategoriesOf(data))
    decreases |data|
  {
    if data != [] {
      var n := |data| - 1;
      var prefix, x := data[..n], data[n];
      GroupingCategories(prefix);
      var prev := Grouping(prefix);
      var c := CategoryOf(x);
      PlaceCategories(prev, x);
      assert Grouping(data) == Place(prev, x);
      CategoriesOfSnoc(data);
      DistinctSnoc(CategoriesOf(data), CategoriesOf(prefix), c);
      if FindGroup(prev, c).None? {
        assert c !in Categories(prev);
      } else {
        assert Categories(prev)[FindGroup(prev, c).value] == c;
      }
    }
  }

  /** Each entry lists exactly the skills of its category, in input order. */
  lemma {:induction false} GroupingContents(data: seq<SkillRow>)
    ensures forall i :: 0 <= i < |Grouping(data)| ==>
      Grouping(data)[i].skills == InCategory(data, Grouping(data)[i].category)
    decreases |data|
  {
    if data != [] {
      var n := |data| - 1;
      var prefix, x := data[..n], data[n];
      GroupingContents(prefix);
      GroupingCategories(prefix);
      var prev, g := Grouping(prefix), Grouping(data);
      assert g == Place(prev, x);
      var c := CategoryOf(x);
      var k := FindGroup(prev, c);
      forall i | 0 <= i < |g|
        ensures g[i].skills == InCategory(data, g[i].category)
      {
        InCategorySnoc(data, g[i].category);
        if k.None? && i == |prev| {
          assert c !in Categories(prev);
          AbsentCategoryIsEmpty(prefix, c);
        } else if k.Some? && i == k.value {
        } else {
          assert NoDuplicates(Categories(prev));
          assert Categories(prev)[i] != c;
        }
      }
    }
  }

  lemma InCategorySnoc(data: seq<SkillRow>, c: string)
    requires data != []
    ensures InCategory(data, c) == InCategory(data[..|data| - 1], c) +
      (if CategoryOf(data[|data| - 1]) == c then [data[|data| - 1]] else [])
  {
  }

  lemma AbsentCategoryIsEmpty(data: seq<SkillRow>, c: string)
    requires c !in Distinct(CategoriesOf(data))
    ensures InCategory(data, c) == []
  {
    forall k | 0 <= k < |data|
      ensures CategoryOf(data[k]) != c
    {
      assert CategoriesOf(data)[k] == CategoryOf(data[k]);
    }
  }

  /** Every entry of the dictionary has at least one skill. */
  lemma GroupsAreNonEmpty(data: seq<SkillRow>)
    ensures forall i :: 0 <= i < |Grouping(data)| ==> Grouping(data)[i].skills != []
  {
    var g := Grouping(data);
    GroupingCategories(data);
    GroupingContents(data);
    forall i | 0 <= i < |g|
      ensures g[i].skills != []
    {
      var cs := CategoriesOf(data);
      assert Categories(g)[i] == g[i].category;
      assert g[i].category in cs;
      var k := IndexOf(cs, g[i].category);
      assert data[k] in g[i].skills;
    }
  }

  function TotalSize(groups: seq<Group>): nat
    decreases |groups|
  {
    if groups == [] then 0 else TotalSize(groups[..|groups| - 1]) + |groups[|groups| - 1].skills|
  }

  lemma {:induction false} TotalSizeUpdate(groups: seq<Group>, k: nat, grp: Group)
    requires k < |groups|
    ensures TotalSize(groups[k := grp]) == TotalSize(groups) - |groups[k].skills| + |grp.skills|
    decreases |groups|
  {
    var n := |groups| - 1;
    if k < n {
      TotalSizeUpdate(groups[..n], k, grp);
      assert groups[k := grp][..n] == groups[..n][k := grp];
    } else {
      assert groups[k := grp][..n] == groups[..n];
    }
  }

  /** The entries hold |data| skills in all: none is dropped or duplicated. */
  lemma {:induction false} GroupingKeepsEverySkill(data: seq<SkillRow>)
    ensures TotalSize(Grouping(data)) == |data|
    decreases |data|
  {
    if data != [] {
      var n := |data| - 1;
      var prev := Grouping(data[..n]);
      GroupingKeepsEverySkill(data[..n]);
      var c := CategoryOf(data[n]);
      var k := FindGroup(prev, c);
      if k.None? {
        assert (prev + [Group(c, [data[n]])])[..|prev|] == prev;
      } else {
        TotalSizeUpdate(prev, k.value, Group(c, prev[k.value].skills + [data[n]]));
      }
    }
  }

  // ---------------------------------------------------------------------------
  // Search box
  // ---------------------------------------------------------------------------

  /** The lower-cased skill name contains the search text. */
  predicate Matches(skill: SkillRow, value: string) {
    Contains(Lower(skill.skillName), value)
  }

  /** The skills of a category that match the search text, each as often as listed, in order. */
  function Matched(skills: seq<SkillRow>, value: string): (r: seq<SkillRow>)
    ensures forall k :: 0 <= k < |r| ==> Matches(r[k], value)
    ensures forall k :: 0 <= k < |skills| && Matches(skills[k], value) ==> skills[k] in r
    ensures IsSubsequence(r, skills)
    ensures forall x {:trigger multiset(r)[x]} :: multiset(r)[x] == if Matches(x, value) then multiset(skills)[x] else 0
  {
    Filter(skills, (x: SkillRow) => Matches(x, value))
  }

  /** The `filtered` dictionary: entries with no match are left out. */
  function FilterGroups(groups: seq<Group>, value: string): seq<Group>
    decreases |groups|
  {
    if groups == [] then []
    else
      var n := |groups| - 1;
      var matched := Matched(groups[n].skills, value);
      FilterGroups(groups[..n], value) + (if |matched| > 0 then [Group(groups[n].category, matched)] else [])
  }

  /** The search box either refetches the full list or shows a filtered grouping. */
  datatype SearchOutcome = Refetch | Show(groups: seq<Group>)

  function Search(groups: seq<Group>, input: string): SearchOutcome {
    var value := Lower(input);
    if value == "" then Refetch else Show(FilterGroups(groups, value))
  }

  /** The onChange handler of the search field. */
  method SearchSkills(groups: seq<Group>, input: string) returns (outcome: SearchOutcome)
    ensures outcome == Search(groups, input)
  {
    var value := Lower(input);
    if value == "" {
      return Refetch;
    }
    var filtered: seq<Group> := [];
    var i := 0;
    while i < |groups|
      invariant 0 <= i <= |groups|
      invariant filtered == FilterGroups(groups[..i], value)
    {
      var matched := Matched(groups[i].skills, value);
      assert groups[..i + 1][..i] == groups[..i];
      if |matched| > 0 {
        filtered := filtered + [Group(groups[i].category, matched)];
      }
      i := i + 1;
    }
    assert groups[..i] == groups;
    outcome := Show(filtered);
  }

  /** Only an empty input refetches. */
  lemma RefetchIff(groups: seq<Group>, input: string)
    ensures Search(groups, input).Refetch? <==> input == ""
  {
    if input != "" {
      assert |Lower(input)| == |input|;
    }
  }

  /** `grp` is an entry of `groups` cut down to the skills matching `value`. */
  predicate CutFrom(groups: seq<Group>, value: string, grp: Group) {
    exists i :: 0 <= i < |groups| && grp == Group(groups[i].category, Matched(groups[i].skills, value))
  }

  /**
   * Each entry of the result is an entry of the current grouping cut down to
   * its matching skills, never empty; every entry with a match is kept; the
   * entries keep their order.
   */
  lemma FilterGroupsSpec(groups: seq<Group>, value: string)
    ensures forall j :: 0 <= j < |FilterGroups(groups, value)| ==>
      FilterGroups(groups, value)[j].skills != []
    ensures forall j :: 0 <= j < |FilterGroups(groups, value)| ==> CutFrom(groups, value, FilterGroups(groups, value)[j])
    ensures forall i :: 0 <= i < |groups| && Matched(groups[i].skills, value) != [] ==>
      Group(groups[i].category, Matched(groups[i].skills, value)) in FilterGroups(groups, value)
  {
    FilteredAreNonEmpty(groups, value);
    FilteredAreCut(groups, value);
    FilterKeepsMatches(groups, value);
  }

  lemma {:induction false} FilteredAreNonEmpty(groups: seq<Group>, value: string)
    ensures forall j :: 0 <= j < |FilterGroups(groups, value)| ==>
      FilterGroups(groups, value)[j].skills != []
    decreases |groups|
  {
    if groups != [] {
      var n := |groups| - 1;
      FilteredAreNonEmpty(groups[..n], value);
    }
  }

  lemma {:induction false} FilteredAreCut(groups: seq<Group>, value: string)
    ensures forall j :: 0 <= j < |FilterGroups(groups, value)| ==> CutFrom(groups, value, FilterGroups(groups, value)[j])
    decreases |groups|
  {
    if groups != [] {
      var n := |groups| - 1;
      var prefix := groups[..n];
      FilteredAreCut(prefix, value);
      var prev, r := FilterGroups(prefix, value), FilterGroups(groups, value);
      forall j | 0 <= j < |r|
        ensures CutFrom(groups, value, r[j])
      {
        if j < |prev| {
          assert CutFrom(prefix, value, prev[j]);
          var i :| 0 <= i < |prefix| && prev[j] == Group(prefix[i].category, Matched(prefix[i].skills, value));
          assert groups[i] == prefix[i];
        } else {
          assert r[j] == Group(groups[n].category, Matched(groups[n].skills, value));
        }
      }
    }
  }

  lemma {:induction false} FilterKeepsMatches(groups: seq<Group>, value: string)
    ensures forall i :: 0 <= i < |groups| && Matched(groups[i].skills, value) != [] ==>
      Group(groups[i].category, Matched(groups[i].skills, value)) in FilterGroups(groups, value)
    decreases |groups|
  {
    if groups != [] {
      var n := |groups| - 1;
      var prefix := groups[..n];
      FilterKeepsMatches(prefix, value);
      var r := FilterGroups(groups, value);
      var matched := Matched(groups[n].skills, value);
      forall i | 0 <= i < |groups| && Matched(groups[i].skills, value) != []
        ensures Group(groups[i].category, Matched(groups[i].skills, value)) in r
      {
        if i < n {
          assert groups[i] == prefix[i];
        } else {
          assert r[|r| - 1] == Group(groups[n].category, matched);
        }
      }
    }
  }

  /** The kept entries are in the order of the grouping. */
  lemma {:induction false} FilterGroupsKeepsOrder(groups: seq<Group>, value: string)
    ensures IsSubsequence(Categories(FilterGroups(groups, value)), Categories(groups))
    decreases |groups|
  {
    if groups != [] {
      var n := |groups| - 1;
      var prefix := groups[..n];
      FilterGroupsKeepsOrder(prefix, value);
      var prev, r := FilterGroups(prefix, value), FilterGroups(groups, value);
      var matched := Matched(groups[n].skills, value);
      var cr, cg := Categories(r), Categories(groups);
      assert cg[..n] == Categories(prefix);
      if |matched| > 0 {
        assert r == prev + [Group(groups[n].category, matched)];
        assert cr[..|prev|] == Categories(prev);
        assert cr[|cr| - 1] == cg[n];
      } else {
        assert r == prev;
      }
    }
  }

  /** Every skill of the list is filed under its category (its own, or "Uncategorized"). */
  lemma GroupOfSkill(data: seq<SkillRow>, skill: SkillRow) returns (gi: nat)
    requires skill in data
    ensures gi < |Grouping(data)|
    ensures Grouping(data)[gi].category == CategoryOf(skill)
    ensures skill in Grouping(data)[gi].skills
  {
    var g := Grouping(data);
    GroupingCategories(data);
    GroupingContents(data);
    var cs := CategoriesOf(data);
    var c := CategoryOf(skill);
    var k :| 0 <= k < |data| && data[k] == skill;
    assert cs[k] == c;
    gi := IndexOf(Categories(g), c);
    assert g[gi].skills == InCategory(data, c);
  }

  /**
   * Searching the grouping of the skill list shows a skill exactly when its
   * lower-cased name contains the lower-cased input, under its category.
   */
  lemma SearchShowsMatchingSkills(data: seq<SkillRow>, input: string, skill: SkillRow)
    requires input != "" && skill in data
    ensures Search(Grouping(data), input).Show?
    ensures (exists j :: (0 <= j < |Search(Grouping(data), input).groups|
        && Search(Grouping(data), input).groups[j].category == CategoryOf(skill)
        && skill in Search(Grouping(data), input).groups[j].skills))
      <==> Matches(skill, Lower(input))
  {
    RefetchIff(Grouping(data), input);
    var value := Lower(input);
    var g := Grouping(data);
    var r := FilterGroups(g, value);
    var c := CategoryOf(skill);
    FilterGroupsSpec(g, value);
    if Matches(skill, value) {
      var gi := GroupOfSkill(data, skill);
      var m := Matched(g[gi].skills, value);
      var pos := IndexOf(g[gi].skills, skill);
      assert skill in m;
      var j := IndexOf(r, Group(c, m));
      assert r[j].category == c && skill in r[j].skills;
    }
    if exists j :: 0 <= j < |r| && r[j].category == c && skill in r[j].skills {
      var j :| 0 <= j < |r| && r[j].category == c && skill in r[j].skills;
      assert CutFrom(g, value, r[j]);
      var i :| 0 <= i < |g| && r[j] == Group(g[i].category, Matched(g[i].skills, value));
      var p := IndexOf(r[j].skills, skill);
      assert Matches(r[j].skills[p], value);
    }
  }
}
