/**
 * The about page's skill filter: the page computes the list of categories,
 * `"All"` followed by the distinct categories of the skills in order of first
 * appearance (a JavaScript `Set` keeps insertion order), and the filtered
 * skills, all of them for `"All"` and otherwise those of the active category,
 * in their original order. The page never changes the active category from
 * `"All"` and renders neither value. The lemmas call a category of the list a
 * tab, and the skills the filter selects for it the skills shown under it.
 */
module SkillFilter {

  datatype Skill = Skill(name: string, level: int, category: string)

  const AllCategory: string := "All"

  /** The page's list of skills. */
  const Skills: seq<Skill> := [
    Skill("UI/UX Design", 95, "Design"),
    Skill("Figma", 98, "Tools"),
    Skill("User Research", 90, "Research"),
    Skill("Prototyping", 92, "Design"),
    Skill("Design Systems", 88, "Design"),
    Skill("Frontend Development", 75, "Development"),
    Skill("Adobe Creative Suite", 85, "Tools"),
    Skill("Sketch", 80, "Tools")
  ]

  /** `skills.map(skill => skill.category)`. */
  function CategoriesOf(skills: seq<Skill>): (cs: seq<string>)
    ensures |cs| == |skills|
    ensures forall i :: 0 <= i < |skills| ==> cs[i] == skills[i].category
  {
    seq(|skills|, i requires 0 <= i < |skills| => skills[i].category)
  }

  predicate NoDuplicates(xs: seq<string>) {
    forall i, j :: 0 <= i < j < |xs| ==> xs[i] != xs[j]
  }

  /** The position of the first occurrence of `x`. */
  function FirstIndex(xs: seq<string>, x: string): (k: nat)
    requires x in xs
    ensures k < |xs| && xs[k] == x && x !in xs[..k]
  {
    if xs[0] == x then 0
    else
      var k := FirstIndex(xs[1..], x);
      assert xs[..k + 1] == [xs[0]] + xs[1..][..k];
      k + 1
  }

  /** A first occurrence inside a prefix is the first occurrence in the whole sequence. */
  lemma FirstIndexPrefix(xs: seq<string>, m: nat, x: string)
    requires m <= |xs| && x in xs[..m]
    ensures FirstIndex(xs, x) == FirstIndex(xs[..m], x)
  {
    var k' := FirstIndex(xs[..m], x);
    assert xs[k'] == x && x !in xs[..k'];
  }

  /**
   * `Array.from(new Set(xs))`, built as the Set is: the values are inserted one
   * after the other, and a value already present is not inserted again.
   */
  function Distinct(xs: seq<string>): seq<string> {
    if xs == [] then []
    else
      var d := Distinct(xs[..|xs| - 1]);
      if xs[|xs| - 1] in d then d else d + [xs[|xs| - 1]]
  }

  /** The Set holds each value of `xs` exactly once, in order of first occurrence. */
  lemma {:induction false} DistinctSpec(xs: seq<string>)
    ensures forall x :: x in Distinct(xs) <==> x in xs
    ensures NoDuplicates(Distinct(xs))
    ensures forall i, j :: 0 <= i < j < |Distinct(xs)| ==>
      FirstIndex(xs, Distinct(xs)[i]) < FirstIndex(xs, Distinct(xs)[j])
  {
    if xs != [] {
      var init := xs[..|xs| - 1];
      var last := xs[|xs| - 1];
      var d := Distinct(init);
      DistinctSpec(init);
      assert xs == init + [last];
      forall y | y in d ensures FirstIndex(xs, y) == FirstIndex(init, y) {
        FirstIndexPrefix(xs, |xs| - 1, y);
      }
      if last !in d {
        var r := d + [last];
        assert FirstIndex(xs, last) == |xs| - 1 by {
          assert last !in xs[..|xs| - 1];
        }
        assert forall i :: 0 <= i < |d| ==> r[i] == d[i];
      }
    }
  }

  /** `skillCategories`: `"All"`, then each category once, in order of first appearance. */
  function SkillCategories(skills: seq<Skill>): (cats: seq<string>)
    ensures |cats| >= 1 && cats[0] == AllCategory
    ensures forall c :: c in cats[1..] <==> exists s :: s in skills && s.category == c
    ensures forall i :: 1 <= i < |cats| ==> cats[i] in CategoriesOf(skills)
    ensures NoDuplicates(cats[1..])
    ensures forall i, j :: 1 <= i < j < |cats| ==>
      FirstIndex(CategoriesOf(skills), cats[i]) < FirstIndex(CategoriesOf(skills), cats[j])
  {
    var cs := CategoriesOf(skills);
    var d := Distinct(cs);
    DistinctSpec(cs);
    forall c ensures c in d <==> exists s :: s in skills && s.category == c {
      if c in cs {
        var i :| 0 <= i < |cs| && cs[i] == c;
        assert skills[i] in skills;
      }
    }
    assert ([AllCategory] + d)[1..] == d;
    [AllCategory] + d
  }

  /** `skills.filter(skill => skill.category === category)`. */
  function FilterCategory(skills: seq<Skill>, category: string): (r: seq<Skill>)
    ensures forall s :: s in r ==> s.category == category
    ensures forall s :: multiset(r)[s] == if s.category == category then multiset(skills)[s] else 0
    ensures IsSubsequence(r, skills)
  {
    if skills == [] then []
    else
      var rest := FilterCategory(skills[1..], category);
      assert skills == [skills[0]] + skills[1..];
      if skills[0].category == category then [skills[0]] + rest else rest
  }

  /** `a` is `b` with some elements left out, the rest in their order. */
  predicate IsSubsequence(a: seq<Skill>, b: seq<Skill>)
    decreases |b|
  {
    if a == [] then true
    else if b == [] then false
    else (a[0] == b[0] && IsSubsequence(a[1..], b[1..])) || IsSubsequence(a, b[1..])
  }

  /** `filteredSkills` for the active category. */
  function FilteredSkills(skills: seq<Skill>, active: string): seq<Skill> {
    if active == AllCategory then skills else FilterCategory(skills, active)
  }

  /** With `"All"` active every skill is shown, unchanged and in order. */
  lemma AllShowsEverything(skills: seq<Skill>)
    ensures FilteredSkills(skills, AllCategory) == skills
  {
  }

  /**
   * With any other category active, exactly that category's skills are shown,
   * each as often as in the list, in their original order; a category no skill
   * has shows nothing.
   */
  lemma CategoryShowsItsSkills(skills: seq<Skill>, active: string)
    requires active != AllCategory
    ensures var r := FilteredSkills(skills, active);
      (forall s :: s in r <==> s in skills && s.category == active) &&
      IsSubsequence(r, skills) &&
      ((forall s :: s in skills ==> s.category != active) ==> r == [])
  {
    var r := FilteredSkills(skills, active);
    forall s ensures s in r <==> s in skills && s.category == active {
      assert s in r <==> multiset(r)[s] > 0;
      assert s in skills <==> multiset(skills)[s] > 0;
    }
    if forall s :: s in skills ==> s.category != active {
      if r != [] {
        assert r[0] in r;
      }
    }
  }

  /** How many times `c` occurs in `cs`. */
  function Occurrences(cs: seq<string>, c: string): nat {
    if cs == [] then 0 else (if cs[0] == c then 1 else 0) + Occurrences(cs[1..], c)
  }

  lemma {:induction false} OccursOnce(cs: seq<string>, c: string)
    requires NoDuplicates(cs) && c in cs
    ensures Occurrences(cs, c) == 1
  {
    if cs[0] == c {
      NeverOccurs(cs[1..], c);
    } else {
      OccursOnce(cs[1..], c);
    }
  }

  lemma {:induction false} NeverOccurs(cs: seq<string>, c: string)
    requires c !in cs
    ensures Occurrences(cs, c) == 0
  {
    if cs != [] {
      NeverOccurs(cs[1..], c);
    }
  }

  /** The number of skills shown over the tabs `cs`, one tab after the other. */
  function ShownPerTab(skills: seq<Skill>, cs: seq<string>): nat {
    if cs == [] then 0 else |FilterCategory(skills, cs[0])| + ShownPerTab(skills, cs[1..])
  }

  lemma {:induction false} ShownPerTabCons(x: Skill, rest: seq<Skill>, cs: seq<string>)
    ensures ShownPerTab([x] + rest, cs) == Occurrences(cs, x.category) + ShownPerTab(rest, cs)
  {
    if cs != [] {
      assert ([x] + rest)[1..] == rest;
      ShownPerTabCons(x, rest, cs[1..]);
    }
  }

  /** No tab shows anything of an empty list. */
  lemma {:induction false} NothingShown(cs: seq<string>)
    ensures ShownPerTab([], cs) == 0
  {
    if cs != [] {
      NothingShown(cs[1..]);
    }
  }

  /** Over tabs that name every category once, each skill is shown under exactly one tab. */
  lemma {:induction false} TabsPartition(skills: seq<Skill>, cs: seq<string>)
    requires NoDuplicates(cs)
    requires forall s :: s in skills ==> s.category in cs
    ensures ShownPerTab(skills, cs) == |skills|
  {
    if skills == [] {
      NothingShown(cs);
    } else {
      var x, rest := skills[0], skills[1..];
      assert skills == [x] + rest;
      ShownPerTabCons(x, rest, cs);
      OccursOnce(cs, x.category);
      assert forall s :: s in rest ==> s in skills;
      TabsPartition(rest, cs);
    }
  }

  /**
   * The category tabs after `"All"` partition the skills: a skill is shown
   * under a tab exactly when the tab is its category, and the tabs together
   * show as many skills as there are (provided no skill is itself in a
   * category called `"All"`).
   */
  lemma CategoriesPartitionSkills(skills: seq<Skill>)
    requires forall s :: s in skills ==> s.category != AllCategory
    ensures var tabs := SkillCategories(skills)[1..];
      (forall s, c :: s in skills && c in tabs ==> (s in FilteredSkills(skills, c) <==> c == s.category)) &&
      ShownPerTab(skills, tabs) == |skills|
  {
    var tabs := SkillCategories(skills)[1..];
    forall s, c | s in skills && c in tabs ensures s in FilteredSkills(skills, c) <==> c == s.category {
      CategoryShowsItsSkills(skills, c);
    }
    TabsPartition(skills, tabs);
  }

  /** Adding a value to the set: it is appended unless already present. */
  lemma DistinctSnoc(xs: seq<string>, x: string)
    ensures Distinct(xs + [x]) == if x in Distinct(xs) then Distinct(xs) else Distinct(xs) + [x]
  {
    assert (xs + [x])[..|xs|] == xs;
  }

  lemma PageCategoryColumn()
    ensures CategoriesOf(Skills) == ["Design", "Tools", "Research", "Design", "Design", "Development", "Tools", "Tools"]
  {
    var cs := CategoriesOf(Skills);
    assert |cs| == 8;
    assert cs[0] == Skills[0].category == "Design";
    assert cs[1] == Skills[1].category == "Tools";
    assert cs[2] == Skills[2].category == "Research";
    assert cs[3] == Skills[3].category == "Design";
    assert cs[4] == Skills[4].category == "Design";
    assert cs[5] == Skills[5].category == "Development";
    assert cs[6] == Skills[6].category == "Tools";
    assert cs[7] == Skills[7].category == "Tools";
  }

  /** Three different values are all kept, in order. */
  lemma DistinctOfThree(a: string, b: string, c: string)
    requires a != b && a != c && b != c
    ensures Distinct([a, b, c]) == [a, b, c]
  {
    assert Distinct([a]) == [a] by {
      DistinctSnoc([], a);
      assert [] + [a] == [a];
    }
    assert Distinct([a, b]) == [a, b] by {
      DistinctSnoc([a], b);
      assert [a] + [b] == [a, b];
    }
    DistinctSnoc([a, b], c);
    assert [a, b] + [c] == [a, b, c];
  }

  /** Repeats of the first value are dropped and a fourth new value is appended. */
  lemma DistinctOfSix(a: string, b: string, c: string, d: string)
    requires a != b && a != c && a != d && b != c && b != d && c != d
    ensures Distinct([a, b, c, a, a, d]) == [a, b, c, d]
  {
    DistinctOfThree(a, b, c);
    assert Distinct([a, b, c, a]) == [a, b, c] by {
      DistinctSnoc([a, b, c], a);
      assert [a, b, c] + [a] == [a, b, c, a];
    }
    assert Distinct([a, b, c, a, a]) == [a, b, c] by {
      DistinctSnoc([a, b, c, a], a);
      assert [a, b, c, a] + [a] == [a, b, c, a, a];
    }
    DistinctSnoc([a, b, c, a, a], d);
    assert [a, b, c, a, a] + [d] == [a, b, c, a, a, d];
    assert [a, b, c] + [d] == [a, b, c, d];
  }

  /** The shape of the page's category column: four categories, first seen in positions 0, 1, 2 and 5. */
  lemma DistinctOfPattern(a: string, b: string, c: string, d: string)
    requires a != b && a != c && a != d && b != c && b != d && c != d
    ensures Distinct([a, b, c, a, a, d, b, b]) == [a, b, c, d]
  {
    DistinctOfSix(a, b, c, d);
    assert Distinct([a, b, c, a, a, d, b]) == [a, b, c, d] by {
      DistinctSnoc([a, b, c, a, a, d], b);
      assert [a, b, c, a, a, d] + [b] == [a, b, c, a, a, d, b];
    }
    DistinctSnoc([a, b, c, a, a, d, b], b);
    assert [a, b, c, a, a, d, b] + [b] == [a, b, c, a, a, d, b, b];
  }

  /** For the page's skills the computed categories are All, Design, Tools, Research, Development. */
  lemma PageCategories()
    ensures SkillCategories(Skills) == ["All", "Design", "Tools", "Research", "Development"]
  {
    PageCategoryColumn();
    var a, b, c, d := "Design", "Tools", "Research", "Development";
    assert |a| == 6 && |b| == 5 && |c| == 8 && |d| == 11;
    DistinctOfPattern(a, b, c, d);
  }

  /** The active category stays `"All"`, so the filtered list the page computes is every skill. */
  lemma PageShowsAllSkills()
    ensures FilteredSkills(Skills, AllCategory) == Skills
    ensures forall s :: s in Skills ==> s.category != AllCategory
  {
  }
}
