/**
 * The Thesis repository page: search, the category and status badges, the statistics
 * cards and the create/edit/delete cycle with its detail fetches.
 */
module ThesisPage {
  import opened Optional
  import opened Strings
  import opened Seqs
  import opened Search
  import opened Entities
  import opened Crud
  import opened Badges
  import opened StatsCards
  import ThesisForm

  /** A thesis matches a lowercased term through its title, author, institution or category. */
  predicate Matches(t: Thesis, term: string) {
    || Mentions(t.title, term)
    || Mentions(t.author, term)
    || Mentions(t.institution, term)
    || MaybeMentions(t.category, term)
  }

  /** The rows shown for the current search box. */
  function Filtered(theses: seq<Thesis>, searchTerm: string): seq<Thesis> {
    SearchBy(theses, searchTerm, Matches)
  }

  /** A blank search shows every thesis; otherwise exactly the matching ones, in order. */
  lemma FilteredSpec(theses: seq<Thesis>, searchTerm: string, t: Thesis)
    ensures IsBlank(searchTerm) ==> Filtered(theses, searchTerm) == theses
    ensures t in Filtered(theses, searchTerm) <==>
      && t in theses
      && (|| IsBlank(searchTerm)
          || Mentions(t.title, Lower(searchTerm))
          || Mentions(t.author, Lower(searchTerm))
          || Mentions(t.institution, Lower(searchTerm))
          || MaybeMentions(t.category, Lower(searchTerm)))
    ensures IsSubsequence(Filtered(theses, searchTerm), theses)
    ensures multiset(Filtered(theses, searchTerm))[t] ==
      if t in Filtered(theses, searchTerm) then multiset(theses)[t] else 0
  {
    SearchBySpec(theses, searchTerm, Matches, t);
  }

  /** `getCategoryBadgeClass`: four named categories, and secondary for anything else or none. */
  function CategoryBadge(category: Option<string>): (b: Badge)
    ensures b == Success <==> category == Some("PhD Thesis")
    ensures b == Primary <==> category == Some("MS Thesis")
    ensures b == Info <==> category == Some("MD Thesis")
    ensures b == Warning <==> category == Some("Post-Doctoral")
    ensures b in {Success, Primary, Info, Warning, Secondary}
  {
    match category
    case Some("PhD Thesis") => Success
    case Some("MS Thesis") => Primary
    case Some("MD Thesis") => Info
    case Some("Post-Doctoral") => Warning
    case _ => Secondary
  }

  predicate IsFeatured(t: Thesis) {
    t.isFeatured == Some(true)
  }

  predicate IsPublished(t: Thesis) {
    t.status == Some("published")
  }

  /** `thesis.viewCount || 0`. */
  function Views(t: Thesis): nat {
    t.viewCount.GetOr(0)
  }

  /** The four statistics cards, computed over the whole list (not the search result). */
  function Stats(theses: seq<Thesis>): (c: Cards)
    ensures c.total == |theses|
    ensures c.featured == |Filter(theses, IsFeatured)| && c.published == |Filter(theses, IsPublished)|
    ensures c.featured <= c.total && c.published <= c.total
  {
    CardsOf(theses, IsFeatured, IsPublished, Views)
  }

  /**
   * One more thesis adds one to the total, one to featured exactly when it is flagged
   * featured, one to published exactly when its status is `published`, and its views
   * (0 when it has no count).
   */
  lemma StatsOfOneMore(theses: seq<Thesis>, x: Thesis)
    ensures var before, after := Stats(theses), Stats(theses + [x]);
      && after.total == before.total + 1
      && after.featured == before.featured + (if x.isFeatured == Some(true) then 1 else 0)
      && after.published == before.published + (if x.status == Some("published") then 1 else 0)
      && after.views == before.views + (if x.viewCount.Some? then x.viewCount.value else 0)
  {
    StatsCards.CardsOfAppend(theses, [x], IsFeatured, IsPublished, Views);
    StatsCards.CardsOfOne(x, IsFeatured, IsPublished, Views);
  }

  /** Every thesis's views are part of the total; a thesis without a count adds nothing. */
  lemma ViewsCounted(theses: seq<Thesis>, i: nat)
    requires i < |theses|
    ensures Views(theses[i]) <= Stats(theses).views
    ensures theses[i].viewCount.None? ==> Views(theses[i]) == 0
  {
    StatsCards.ViewsCounted(theses, IsFeatured, IsPublished, Views, i);
  }

  /** The featured count is the number of theses flagged featured, each of which the list holds. */
  lemma FeaturedCounted(theses: seq<Thesis>, t: Thesis)
    ensures t in Filter(theses, IsFeatured) <==> t in theses && t.isFeatured == Some(true)
    ensures Stats(theses).featured == |Filter(theses, IsFeatured)|
  {
    FilterMembers(theses, IsFeatured, t);
  }

  function Id(t: Thesis): int {
    t.id
  }

  /**
   * `handleEdit`: the full thesis (with its content) is fetched first; only a fetched thesis
   * opens the form.
   */
  function HandleEdit(p: Page<Thesis>, fetched: Outcome<Thesis>): (r: Page<Thesis>)
    ensures fetched.Loaded? ==> r.modal == Modal(true, Some(fetched.value))
    ensures fetched.Failed? ==> r.modal == p.modal && r.error == Some(TextOr(fetched.message, "Failed to load thesis details"))
  {
    EditFetched(p, fetched, "Failed to load thesis details")
  }

  /** `handlePreview`: the full thesis is fetched and previewed. */
  function HandlePreview(p: Page<Thesis>, fetched: Outcome<Thesis>): (r: Page<Thesis>)
    ensures fetched.Loaded? ==> r.preview == Some(fetched.value)
    ensures fetched.Failed? ==> r.preview == p.preview && r.error == Some(TextOr(fetched.message, "Failed to load thesis for preview"))
    ensures r.modal == p.modal
  {
    PreviewFetched(p, fetched, "Failed to load thesis for preview")
  }

  /** `handleSubmit`: an edit updates the thesis being edited; otherwise one is created. */
  function HandleSubmit(p: Page<Thesis>, data: ThesisForm.Payload, outcome: Outcome<()>)
    : (r: (Save<ThesisForm.Payload>, Saved<Thesis>))
    ensures r.0 == (if p.modal.editing.Some? then Update(p.modal.editing.value.id, data) else Create(data))
    ensures r.1.Settled? <==> outcome.Loaded?
    ensures r.1.Settled? ==> !r.1.page.modal.show && r.1.page.modal.editing.None?
    ensures r.1.Rethrown? ==> r.1.message == TextOr(outcome.message, "Failed to save thesis")
  {
    (SaveCall(p, data, Id), AfterSave(p, data.title, outcome, "Failed to save thesis"))
  }

  /** `handleDelete`: a declined confirmation issues no call and leaves the page as it was. */
  function HandleDelete(p: Page<Thesis>, t: Thesis, confirmed: bool, outcome: Outcome<()>): (r: (Option<int>, Page<Thesis>))
    ensures !confirmed ==> r.0.None? && r.1 == p
    ensures confirmed ==> r.0 == Some(t.id)
    ensures confirmed && outcome.Loaded? ==> r.1.notice == Some(Deleted(t.title))
    ensures confirmed && outcome.Failed? ==> r.1.error == Some(TextOr(outcome.message, "Failed to delete thesis"))
  {
    var call := ConfirmedCall(confirmed, t, Id);
    if call.None? then (call, p) else (call, AfterDelete(p, t.title, outcome, "Failed to delete thesis"))
  }
}
