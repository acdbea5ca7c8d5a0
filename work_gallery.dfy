/**
 * The Work section's tab filter (Work in client/src/pages/home.tsx): the
 * "All" tab shows every project, any other tab the projects of its category,
 * in their original order.
 */
module WorkGallery {
  import opened Sequences

  datatype Category = Branding | Websites | Apps

  /** The fields of a project that the filter and the cards read. */
  datatype Project = Project(id: string, title: string, category: Category, line: string)

  datatype Tab = All | Only(category: Category)

  /** The tab buttons, in order; the first is selected initially. */
  const Tabs: seq<Tab> := [All, Only(Branding), Only(Websites), Only(Apps)]

  /** Every tab has a button, exactly one, and "All" is the first. */
  lemma TabsCoverAll(t: Tab)
    ensures t in Tabs && Tabs[0] == All
    ensures forall i, j :: 0 <= i < j < |Tabs| ==> Tabs[i] != Tabs[j]
  {
    match t
    case All => assert Tabs[0] == t;
    case Only(Branding) => assert Tabs[1] == t;
    case Only(Websites) => assert Tabs[2] == t;
    case Only(Apps) => assert Tabs[3] == t;
  }

  /** `projects.filter((p) => p.category === tab)`. */
  function OfCategory(projects: seq<Project>, c: Category): (r: seq<Project>)
    ensures |r| <= |projects|
    ensures forall p :: p in r ==> p.category == c
  {
    if projects == [] then []
    else (if projects[0].category == c then [projects[0]] else []) + OfCategory(projects[1..], c)
  }

  /** The `filtered` memo. */
  function Filtered(projects: seq<Project>, tab: Tab): seq<Project> {
    match tab
    case All => projects
    case Only(c) => OfCategory(projects, c)
  }

  /** Each project of the category is kept as many times as it occurs; the others are dropped. */
  lemma {:induction false} OfCategoryCounts(projects: seq<Project>, c: Category, p: Project)
    ensures multiset(OfCategory(projects, c))[p] == if p.category == c then multiset(projects)[p] else 0
  {
    if projects != [] {
      var h, rest := projects[0], projects[1..];
      var kept := if h.category == c then [h] else [];
      OfCategoryCounts(rest, c, p);
      assert projects == [h] + rest;
      assert multiset(projects) == multiset([h]) + multiset(rest);
      assert OfCategory(projects, c) == kept + OfCategory(rest, c);
      assert multiset(OfCategory(projects, c)) == multiset(kept) + multiset(OfCategory(rest, c));
    }
  }

  /** The kept projects appear in their original order. */
  lemma {:induction false} OfCategoryIsSubsequence(projects: seq<Project>, c: Category)
    ensures IsSubsequence(OfCategory(projects, c), projects)
  {
    if projects != [] {
      OfCategoryIsSubsequence(projects[1..], c);
      var kept := OfCategory(projects, c);
      if projects[0].category == c {
        assert kept[0] == projects[0] && kept[1..] == OfCategory(projects[1..], c);
      } else {
        assert kept == OfCategory(projects[1..], c);
        assert kept != [] ==> kept[0] in kept;
      }
    }
  }

  lemma {:induction false} OfCategoryAppend(a: seq<Project>, b: seq<Project>, c: Category)
    ensures OfCategory(a + b, c) == OfCategory(a, c) + OfCategory(b, c)
  {
    if a == [] {
      assert a + b == b;
    } else {
      assert (a + b)[1..] == a[1..] + b;
      OfCategoryAppend(a[1..], b, c);
    }
  }

  /** The three category tabs split the projects between them. */
  lemma {:induction false} CategoriesPartition(projects: seq<Project>)
    ensures |OfCategory(projects, Branding)| + |OfCategory(projects, Websites)| + |OfCategory(projects, Apps)| == |projects|
    ensures multiset(OfCategory(projects, Branding)) + multiset(OfCategory(projects, Websites))
            + multiset(OfCategory(projects, Apps)) == multiset(projects)
  {
    if projects != [] {
      CategoriesPartition(projects[1..]);
    }
    var shown := multiset(OfCategory(projects, Branding)) + multiset(OfCategory(projects, Websites))
                 + multiset(OfCategory(projects, Apps));
    forall p | true ensures shown[p] == multiset(projects)[p] {
      OfCategoryCounts(projects, Branding, p);
      OfCategoryCounts(projects, Websites, p);
      OfCategoryCounts(projects, Apps, p);
    }
  }

  /** Selecting the same tab again changes nothing. */
  lemma {:induction false} FilteredIdempotent(projects: seq<Project>, tab: Tab)
    ensures Filtered(Filtered(projects, tab), tab) == Filtered(projects, tab)
  {
    if tab.Only? {
      OfCategoryKeepsAll(OfCategory(projects, tab.category), tab.category);
    }
  }

  lemma {:induction false} OfCategoryKeepsAll(projects: seq<Project>, c: Category)
    requires forall i :: 0 <= i < |projects| ==> projects[i].category == c
    ensures OfCategory(projects, c) == projects
  {
    if projects != [] {
      OfCategoryKeepsAll(projects[1..], c);
    }
  }
}
