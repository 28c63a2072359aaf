/**
 * The project card on the home and work pages: everything it shows is derived
 * from the project's props. Two projects (by slug) are not clickable; the
 * others link to their case-study page. The hover state and the entrance
 * animation do not change what is shown and are not part of this model.
 */
module ProjectCard {
  import opened Wrappers

  /** The card's props; `inProgress` is optional, and absent counts as false. */
  datatype Project = Project(
    title: string,
    category: string,
    description: string,
    image: string,
    slug: string,
    color: string,
    inProgress: Option<bool>)

  /** What the card renders. `href` is the link's target, `None` when the card is a plain block. */
  datatype Card = Card(
    href: Option<string>,
    cursor: string,
    imageSrc: string,
    imageAlt: string,
    inProgressBadge: bool,
    badge: string,
    heading: string,
    description: string,
    comingSoon: bool,
    cardColor: string)

  /** The slugs whose cards do not link anywhere. */
  const NonClickableProjects: seq<string> := ["zumo-exchange-feature", "waifind"]

  const ZarkTitle: string := "Zark Admin Dashboard"
  const ZarkBadge: string := "SAAS INTERNAL + B2B"
  const ComingSoonDescription: string := "Current project, coming soon."
  const InProgressImage: string := "/images/ux-in-progress.png"
  const WorkPrefix: string := "/work/"

  /** `project.inProgress` is truthy. */
  predicate InProgress(p: Project) {
    p.inProgress == Some(true)
  }

  /** `!nonClickableProjects.includes(project.slug)`. */
  predicate IsClickable(p: Project) {
    p.slug !in NonClickableProjects
  }

  /** The card for a project. */
  function Render(p: Project): (c: Card)
    ensures c.href.Some? <==> p.slug != "zumo-exchange-feature" && p.slug != "waifind"
    ensures c.href.Some? ==>
      |c.href.value| == |WorkPrefix| + |p.slug| &&
      c.href.value[..|WorkPrefix|] == WorkPrefix && c.href.value[|WorkPrefix|..] == p.slug
    ensures c.cursor == (if c.href.Some? then "cursor-pointer" else "cursor-default")
    ensures c.imageSrc != ""
    ensures p.image != "" ==> c.imageSrc == p.image
    ensures p.image == "" ==> c.imageSrc == InProgressImage
    ensures c.imageAlt == p.title && c.heading == p.title
    ensures p.title == ZarkTitle ==> c.badge == ZarkBadge
    ensures p.title != ZarkTitle ==> c.badge == p.category
    ensures c.inProgressBadge == c.comingSoon == (p.inProgress == Some(true))
    ensures c.comingSoon ==> c.description == ComingSoonDescription
    ensures !c.comingSoon ==> c.description == p.description
    ensures |c.cardColor| == |p.color| + 5 && c.cardColor[..4] == "hsl(" &&
      c.cardColor[4..|c.cardColor| - 1] == p.color && c.cardColor[|c.cardColor| - 1] == ')'
  {
    var clickable := IsClickable(p);
    Card(
      href := if clickable then Some(WorkPrefix + p.slug) else None,
      cursor := if clickable then "cursor-pointer" else "cursor-default",
      imageSrc := if p.image != "" then p.image else InProgressImage,
      imageAlt := p.title,
      inProgressBadge := InProgress(p),
      badge := if p.title == ZarkTitle then ZarkBadge else p.category,
      heading := p.title,
      description := if InProgress(p) then ComingSoonDescription else p.description,
      comingSoon := InProgress(p),
      cardColor := "hsl(" + p.color + ")")
  }

  /** Two cards that link to the same page belong to the same slug. */
  lemma LinkIdentifiesSlug(p1: Project, p2: Project)
    requires Render(p1).href.Some? && Render(p1).href == Render(p2).href
    ensures p1.slug == p2.slug
  {
  }

  /** Two cards with the same colour string were given the same colour. */
  lemma ColorIdentifiesColor(p1: Project, p2: Project)
    requires Render(p1).cardColor == Render(p2).cardColor
    ensures p1.color == p2.color
  {
    var c := Render(p1).cardColor;
    assert p1.color == c[4..|c| - 1];
  }

  /** The two non-clickable projects render without a link; every other slug gets its case-study link. */
  lemma DenyList(p: Project)
    ensures p.slug in NonClickableProjects ==> Render(p).href == None && Render(p).cursor == "cursor-default"
    ensures p.slug !in NonClickableProjects ==> Render(p).href == Some("/work/" + p.slug)
  {
  }
}
