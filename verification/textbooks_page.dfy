/** The Textbooks list page: search, the level badge and the create/edit/delete cycle. */
module TextbooksPage {
  import opened Optional
  import opened Strings
  import opened Seqs
  import opened Search
  import opened Entities
  import opened Crud
  import opened Badges
  import TextbookForm

  /** A textbook matches a lowercased term through its title, author, category, level or tags. */
  predicate Matches(t: Textbook, term: string) {
    || Mentions(t.title, term)
    || Mentions(t.author, term)
    || MaybeMentions(t.category, term)
    || MaybeMentions(t.level, term)
    || MaybeMentions(t.tags, term)
  }

  /** The rows shown for the current search box. */
  function Filtered(textbooks: seq<Textbook>, searchTerm: string): seq<Textbook> {
    SearchBy(textbooks, searchTerm, Matches)
  }

  /**
   * A blank search shows every textbook; otherwise a textbook is shown exactly when one of
   * its five searched texts contains the lowercased term. The result keeps the list's order.
   */
  lemma FilteredSpec(textbooks: seq<Textbook>, searchTerm: string, t: Textbook)
    ensures IsBlank(searchTerm) ==> Filtered(textbooks, searchTerm) == textbooks
    ensures t in Filtered(textbooks, searchTerm) <==>
      && t in textbooks
      && (|| IsBlank(searchTerm)
          || Mentions(t.title, Lower(searchTerm))
          || Mentions(t.author, Lower(searchTerm))
          || MaybeMentions(t.category, Lower(searchTerm))
          || MaybeMentions(t.level, Lower(searchTerm))
          || MaybeMentions(t.tags, Lower(searchTerm)))
    ensures IsSubsequence(Filtered(textbooks, searchTerm), textbooks)
    ensures multiset(Filtered(textbooks, searchTerm))[t] ==
      if t in Filtered(textbooks, searchTerm) then multiset(textbooks)[t] else 0
  {
    SearchBySpec(textbooks, searchTerm, Matches, t);
  }

  /** The level column: undergraduate (`UG`) textbooks get the primary badge, all others success. */
  function LevelBadge(t: Textbook): (b: Badge)
    ensures b == Primary <==> t.level == Some("UG")
    ensures b == Primary || b == Success
  {
    if t.level == Some("UG") then Primary else Success
  }

  function Id(t: Textbook): int {
    t.id
  }

  /**
   * The page's effect on mount: the `?action=new` query parameter opens an empty form, and
   * saving it then creates a textbook.
   */
  lemma QueryOpensCreate(p: Page<Textbook>, data: TextbookForm.Payload)
    ensures OnQuery(p, Some("new")).modal.show
    ensures SaveCall(OnQuery(p, Some("new")), data, Id) == Create(data)
  {
  }

  /** `handleSubmit`: an edit updates the textbook being edited; otherwise one is created. */
  function HandleSubmit(p: Page<Textbook>, data: TextbookForm.Payload, outcome: Outcome<()>)
    : (r: (Save<TextbookForm.Payload>, Saved<Textbook>))
    ensures r.0 == (if p.modal.editing.Some? then Update(p.modal.editing.value.id, data) else Create(data))
    ensures r.1.Settled? <==> outcome.Loaded?
    ensures r.1.Settled? ==> !r.1.page.modal.show && r.1.page.modal.editing.None?
    ensures r.1.Rethrown? ==> r.1.message == TextOr(outcome.message, "Failed to save textbook")
  {
    (SaveCall(p, data, Id), AfterSave(p, data.title, outcome, "Failed to save textbook"))
  }

  /** `handleDelete`: a declined confirmation issues no call and leaves the page as it was. */
  function HandleDelete(p: Page<Textbook>, t: Textbook, confirmed: bool, outcome: Outcome<()>): (r: (Option<int>, Page<Textbook>))
    ensures !confirmed ==> r.0.None? && r.1 == p
    ensures confirmed ==> r.0 == Some(t.id)
    ensures confirmed && outcome.Loaded? ==> r.1.notice == Some(Deleted(t.title))
    ensures confirmed && outcome.Failed? ==> r.1.error == Some(TextOr(outcome.message, "Failed to delete textbook"))
  {
    var call := ConfirmedCall(confirmed, t, Id);
    if call.None? then (call, p) else (call, AfterDelete(p, t.title, outcome, "Failed to delete textbook"))
  }
}
