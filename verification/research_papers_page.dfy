/**
 * The Research Papers page: search (as written, and corrected), the category and status
 * badges, the authors cell, the statistics cards and the create/edit/delete cycle.
 */
module ResearchPapersPage {
  import opened Optional
  import opened Strings
  import opened Seqs
  import opened Search
  import opened Entities
  import opened Crud
  import opened Badges
  import opened StatsCards
  import ResearchPaperForm

  /** One author of a list mentions the term: `authors.some(a => a.toLowerCase().includes(term))`. */
  predicate SomeAuthorMentions(authors: seq<string>, term: string) {
    exists i :: 0 <= i < |authors| && Mentions(authors[i], term)
  }

  /** What evaluating the search predicate on one paper gives: a boolean, or a thrown `TypeError`. */
  datatype Eval = Threw | Gave(b: bool)

  /**
   * The search predicate as written: `paper.authors.some(...)` is called on any truthy
   * `authors`. When the backend sends the authors as one non-empty string (as the form
   * submits them and as the authors cell expects), a string has no `some` method and the
   * call throws, unless the title already matched.
   */
  function MatchesAsWritten(p: ResearchPaper, term: string): Eval {
    if Mentions(p.title, term) then Gave(true)
    else
      var rest := Mentions(p.institution, term) || MaybeMentions(p.category, term);
      match p.authors
      case Missing => Gave(rest)
      case Text(s) => if s == "" then Gave(rest) else Threw
      case Items(xs) => Gave(SomeAuthorMentions(xs, term) || rest)
  }

  /** `papers.filter(...)` with the as-written predicate: the first throw aborts the whole filter. */
  function FilterAsWritten(papers: seq<ResearchPaper>, term: string): Option<seq<ResearchPaper>> {
    if |papers| == 0 then Some([])
    else
      match MatchesAsWritten(papers[0], term)
      case Threw => None
      case Gave(b) =>
        match FilterAsWritten(papers[1..], term)
        case None => None
        case Some(rest) => Some((if b then [papers[0]] else []) + rest)
  }

  /**
   * The search effect as written. `None` is the `TypeError` thrown inside the effect; where the
   * page is mounted no error boundary catches it, so React unmounts the whole tree rather than
   * keep the old list. `src/App.js` routes only the Dashboard, Books and Chapters pages.
   */
  function FilteredAsWritten(papers: seq<ResearchPaper>, searchTerm: string): Option<seq<ResearchPaper>> {
    if IsBlank(searchTerm) then Some(papers) else FilterAsWritten(papers, Lower(searchTerm))
  }

  /** A paper makes the as-written search throw: its title does not match and its authors are a non-empty string. */
  predicate Throws(p: ResearchPaper, term: string) {
    !Mentions(p.title, term) && p.authors.Text? && p.authors.text != ""
  }

  /** The as-written filter throws exactly when some paper in the list throws. */
  lemma {:induction false} FilterAsWrittenThrows(papers: seq<ResearchPaper>, term: string)
    ensures FilterAsWritten(papers, term).None? <==> exists i :: 0 <= i < |papers| && Throws(papers[i], term)
  {
    if |papers| > 0 {
      FilterAsWrittenThrows(papers[1..], term);
      if !Throws(papers[0], term) {
        assert MatchesAsWritten(papers[0], term).Gave?;
        if exists i :: 0 <= i < |papers| && Throws(papers[i], term) {
          var i :| 0 <= i < |papers| && Throws(papers[i], term);
          assert papers[1..][i - 1] == papers[i];
        }
      }
    }
  }

  /**
   * The discrepancy: a paper titled `Veda` whose authors are the string `"Sharma"`, searched for
   * `"sharma"`, makes the search throw, although the corrected search shows it.
   */
  lemma StringAuthorsBreakSearch()
    ensures var p := ResearchPaper(1, "Veda", Text("Sharma"), "AIIMS", None, None, None, None,
                                   Missing, None, None, None, None, None, None, None, None, None, None, None, None);
      && FilteredAsWritten([p], "sharma").None?
      && Filtered([p], "sharma") == [p]
  {
    var p := ResearchPaper(1, "Veda", Text("Sharma"), "AIIMS", None, None, None, None,
                           Missing, None, None, None, None, None, None, None, None, None, None, None, None);
    assert Lower("sharma") == "sharma";
    ContainsBasics(Lower("Veda"), "sharma");
    assert Throws(p, "sharma");
    FilterAsWrittenThrows([p], "sharma");
    assert Lower("Sharma") == "sharma";
    ContainsBasics("sharma", "sharma");
    assert AuthorsMention(p.authors, "sharma");
    assert Matches(p, "sharma");
    assert MatchesTerm(Matches, "sharma")([p][0]);
    FilterAll([p], MatchesTerm(Matches, "sharma"));
  }

  /** The authors, whichever way they are sent, mention the term. */
  predicate AuthorsMention(authors: TextList, term: string) {
    match authors
    case Missing => false
    case Text(s) => Mentions(s, term)
    case Items(xs) => SomeAuthorMentions(xs, term)
  }

  /** The corrected predicate: a paper matches through its title, any author, its institution or its category. */
  predicate Matches(p: ResearchPaper, term: string) {
    || Mentions(p.title, term)
    || AuthorsMention(p.authors, term)
    || Mentions(p.institution, term)
    || MaybeMentions(p.category, term)
  }

  /** The rows shown for the current search box, with the corrected predicate. */
  function Filtered(papers: seq<ResearchPaper>, searchTerm: string): seq<ResearchPaper> {
    SearchBy(papers, searchTerm, Matches)
  }

  /** A blank search shows every paper; otherwise exactly the matching ones, in order. */
  lemma FilteredSpec(papers: seq<ResearchPaper>, searchTerm: string, p: ResearchPaper)
    ensures IsBlank(searchTerm) ==> Filtered(papers, searchTerm) == papers
    ensures p in Filtered(papers, searchTerm) <==>
      && p in papers
      && (|| IsBlank(searchTerm)
          || Mentions(p.title, Lower(searchTerm))
          || AuthorsMention(p.authors, Lower(searchTerm))
          || Mentions(p.institution, Lower(searchTerm))
          || MaybeMentions(p.category, Lower(searchTerm)))
    ensures IsSubsequence(Filtered(papers, searchTerm), papers)
    ensures multiset(Filtered(papers, searchTerm))[p] ==
      if p in Filtered(papers, searchTerm) then multiset(papers)[p] else 0
  {
    SearchBySpec(papers, searchTerm, Matches, p);
  }

  /** Wherever the as-written search does not throw, the corrected search shows the same rows. */
  lemma {:induction false} CorrectedAgreesWhenNoThrow(papers: seq<ResearchPaper>, term: string)
    requires term != ""
    requires FilterAsWritten(papers, term).Some?
    ensures FilterAsWritten(papers, term) == Some(Filter(papers, MatchesTerm(Matches, term)))
  {
    if |papers| > 0 {
      CorrectedAgreesWhenNoThrow(papers[1..], term);
      ContainsBasics(Lower(""), term);
      assert MatchesAsWritten(papers[0], term) == Gave(Matches(papers[0], term));
    }
  }

  /** `getCategoryBadgeClass`: four named categories, and secondary for anything else or none. */
  function CategoryBadge(category: Option<string>): (b: Badge)
    ensures b == Success <==> category == Some("clinical-trial")
    ensures b == Primary <==> category == Some("research-paper")
    ensures b == Info <==> category == Some("review-article")
    ensures b == Warning <==> category == Some("case-study")
    ensures b in {Success, Primary, Info, Warning, Secondary}
  {
    match category
    case Some("clinical-trial") => Success
    case Some("research-paper") => Primary
    case Some("review-article") => Info
    case Some("case-study") => Warning
    case _ => Secondary
  }

  /** The category label: `category.replace('-', ' ')` replaces only the first hyphen. */
  function CategoryLabel(category: string): (r: string)
    ensures |r| == |category|
  {
    ReplaceFirstSpec(category, '-', ' ');
    ReplaceFirst(category, '-', ' ')
  }

  /** The label differs from the category in one place at most: its first hyphen, now a space. */
  lemma CategoryLabelSpec(category: string)
    ensures forall i :: 0 <= i < |category| && i != IndexOf(category, '-') ==> CategoryLabel(category)[i] == category[i]
    ensures IndexOf(category, '-') < |category| ==> CategoryLabel(category)[IndexOf(category, '-')] == ' '
  {
    ReplaceFirstSpec(category, '-', ' ');
  }

  /** The authors cell: the text shown, and the `+N` suffix of further authors. */
  datatype AuthorsCell = AuthorsCell(shown: string, more: Option<nat>)

  /**
   * A list shows its first two authors joined by `, ` and `+N` for the N others when there
   * are more than two; a string is shown as it is.
   */
  function AuthorsCellOf(authors: TextList): (c: AuthorsCell)
    ensures authors.Items? ==> c.shown == Join(Take(authors.items, 2), ", ")
    ensures authors.Items? && |authors.items| > 2 <==> c.more.Some?
    ensures c.more.Some? ==> c.more.value == |authors.items| - 2 && c.more.value > 0
    ensures authors.Text? ==> c.shown == authors.text
  {
    match authors
    case Missing => AuthorsCell("", None)
    case Text(s) => AuthorsCell(s, None)
    case Items(xs) => AuthorsCell(Join(Take(xs, 2), ", "), if |xs| > 2 then Some(|xs| - 2) else None)
  }

  /** The shown authors and the `+N` suffix account for every author of a list. */
  lemma AuthorsCellAccountsForAll(authors: seq<string>)
    ensures var c := AuthorsCellOf(Items(authors));
      |Take(authors, 2)| + (if c.more.Some? then c.more.value else 0) == |authors|
    ensures forall k :: 0 <= k < |authors| && k < 2 ==> Contains(AuthorsCellOf(Items(authors)).shown, authors[k])
  {
    forall k | 0 <= k < |authors| && k < 2 ensures Contains(AuthorsCellOf(Items(authors)).shown, authors[k]) {
      JoinKeepsItems(Take(authors, 2), ", ", k);
    }
  }

  predicate IsFeatured(p: ResearchPaper) {
    p.isFeatured == Some(true)
  }

  predicate IsPublished(p: ResearchPaper) {
    p.status == Some("published")
  }

  /** `paper.viewCount || 0`. */
  function Views(p: ResearchPaper): nat {
    p.viewCount.GetOr(0)
  }

  /** The four statistics cards, computed over the whole list (not the search result). */
  function Stats(papers: seq<ResearchPaper>): (c: Cards)
    ensures c.total == |papers|
    ensures c.featured == |Filter(papers, IsFeatured)| && c.published == |Filter(papers, IsPublished)|
    ensures c.featured <= c.total && c.published <= c.total
  {
    CardsOf(papers, IsFeatured, IsPublished, Views)
  }

  /**
   * One more paper adds one to the total, one to featured exactly when it is flagged
   * featured, one to published exactly when its status is `published`, and its views
   * (0 when it has no count).
   */
  lemma StatsOfOneMore(papers: seq<ResearchPaper>, x: ResearchPaper)
    ensures var before, after := Stats(papers), Stats(papers + [x]);
      && after.total == before.total + 1
      && after.featured == before.featured + (if x.isFeatured == Some(true) then 1 else 0)
      && after.published == before.published + (if x.status == Some("published") then 1 else 0)
      && after.views == before.views + (if x.viewCount.Some? then x.viewCount.value else 0)
  {
    StatsCards.CardsOfAppend(papers, [x], IsFeatured, IsPublished, Views);
    StatsCards.CardsOfOne(x, IsFeatured, IsPublished, Views);
  }

  /** Every paper's views are part of the total; a paper without a count adds nothing. */
  lemma ViewsCounted(papers: seq<ResearchPaper>, i: nat)
    requires i < |papers|
    ensures Views(papers[i]) <= Stats(papers).views
    ensures papers[i].viewCount.None? ==> Views(papers[i]) == 0
  {
    StatsCards.ViewsCounted(papers, IsFeatured, IsPublished, Views, i);
  }

  function Id(p: ResearchPaper): int {
    p.id
  }

  /** `handleEdit`: only a fetched full paper opens the form; a failed fetch shows the error. */
  function HandleEdit(pg: Page<ResearchPaper>, fetched: Outcome<ResearchPaper>): (r: Page<ResearchPaper>)
    ensures fetched.Loaded? ==> r.modal == Modal(true, Some(fetched.value))
    ensures fetched.Failed? ==> r.modal == pg.modal && r.error == Some(TextOr(fetched.message, "Failed to load research paper details"))
  {
    EditFetched(pg, fetched, "Failed to load research paper details")
  }

  /** `handlePreview`: the full paper is fetched and previewed. */
  function HandlePreview(pg: Page<ResearchPaper>, fetched: Outcome<ResearchPaper>): (r: Page<ResearchPaper>)
    ensures fetched.Loaded? ==> r.preview == Some(fetched.value)
    ensures fetched.Failed? ==> r.preview == pg.preview && r.error == Some(TextOr(fetched.message, "Failed to load research paper for preview"))
    ensures r.modal == pg.modal
  {
    PreviewFetched(pg, fetched, "Failed to load research paper for preview")
  }

  /** `handleSubmit`: an edit updates the paper being edited; otherwise one is created. */
  function HandleSubmit(pg: Page<ResearchPaper>, data: ResearchPaperForm.Payload, outcome: Outcome<()>)
    : (r: (Save<ResearchPaperForm.Payload>, Saved<ResearchPaper>))
    ensures r.0 == (if pg.modal.editing.Some? then Update(pg.modal.editing.value.id, data) else Create(data))
    ensures r.1.Settled? <==> outcome.Loaded?
    ensures r.1.Settled? ==> !r.1.page.modal.show && r.1.page.modal.editing.None?
    ensures r.1.Rethrown? ==> r.1.message == TextOr(outcome.message, "Failed to save research paper")
  {
    (SaveCall(pg, data, Id), AfterSave(pg, data.title, outcome, "Failed to save research paper"))
  }

  /** `handleDelete`: a declined confirmation issues no call and leaves the page as it was. */
  function HandleDelete(pg: Page<ResearchPaper>, p: ResearchPaper, confirmed: bool, outcome: Outcome<()>)
    : (r: (Option<int>, Page<ResearchPaper>))
    ensures !confirmed ==> r.0.None? && r.1 == pg
    ensures confirmed ==> r.0 == Some(p.id)
    ensures confirmed && outcome.Loaded? ==> r.1.notice == Some(Deleted(p.title))
    ensures confirmed && outcome.Failed? ==> r.1.error == Some(TextOr(outcome.message, "Failed to delete research paper"))
  {
    var call := ConfirmedCall(confirmed, p, Id);
    if call.None? then (call, pg) else (call, AfterDelete(pg, p.title, outcome, "Failed to delete research paper"))
  }
}
