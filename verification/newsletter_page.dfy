/**
 * The Newsletter Subscriptions page: the status filter and email search, the statistics
 * cards, the CSV export of the shown rows, and unsubscribe and delete.
 */
module NewsletterPage {
  import opened Optional
  import opened Strings
  import opened Seqs
  import opened Search
  import opened Entities
  import opened Crud
  import opened Badges

  /** The search box and the status dropdown (`all`, `active` or `inactive`). */
  datatype Filters = Filters(searchTerm: string, status: string)

  predicate IsActive(s: NewsletterSubscription) {
    s.isActive
  }

  predicate IsInactive(s: NewsletterSubscription) {
    !s.isActive
  }

  /** The search looks at the email alone. */
  predicate Matches(s: NewsletterSubscription, term: string) {
    Mentions(s.email, term)
  }

  /** The rows shown: `active` keeps active subscriptions, `inactive` the others, anything else all. */
  function Filtered(subs: seq<NewsletterSubscription>, f: Filters): seq<NewsletterSubscription> {
    var byStatus :=
      if f.status == "active" then Filter(subs, IsActive)
      else if f.status == "inactive" then Filter(subs, IsInactive)
      else subs;
    SearchBy(byStatus, f.searchTerm, Matches)
  }

  /** Whether a subscription passes the status dropdown. */
  predicate StatusPasses(f: Filters, s: NewsletterSubscription) {
    && (f.status == "active" ==> s.isActive)
    && (f.status == "inactive" ==> !s.isActive)
  }

  /**
   * A subscription is shown exactly when it is in the list, passes the status dropdown and
   * its email contains the lowercased search (or the box is blank); order is kept.
   */
  lemma FilteredSpec(subs: seq<NewsletterSubscription>, f: Filters, s: NewsletterSubscription)
    ensures s in Filtered(subs, f) <==>
      && s in subs
      && StatusPasses(f, s)
      && (IsBlank(f.searchTerm) || Mentions(s.email, Lower(f.searchTerm)))
    ensures IsSubsequence(Filtered(subs, f), subs)
    ensures multiset(Filtered(subs, f))[s] == if s in Filtered(subs, f) then multiset(subs)[s] else 0
  {
    var byStatus :=
      if f.status == "active" then Filter(subs, IsActive)
      else if f.status == "inactive" then Filter(subs, IsInactive)
      else subs;
    SearchBySpec(byStatus, f.searchTerm, Matches, s);
    FilterMembers(subs, IsActive, s);
    FilterMembers(subs, IsInactive, s);
    SearchByIsFilter(byStatus, f.searchTerm, Matches);
    var search := SearchPass(Matches, f.searchTerm);
    if f.status == "active" {
      FilterTwice(subs, IsActive, search, Both(IsActive, search));
      FilterIsSubsequence(subs, Both(IsActive, search));
      FilterMultiplicity(subs, Both(IsActive, search), s);
      FilterMembers(subs, Both(IsActive, search), s);
    } else if f.status == "inactive" {
      FilterTwice(subs, IsInactive, search, Both(IsInactive, search));
      FilterIsSubsequence(subs, Both(IsInactive, search));
      FilterMultiplicity(subs, Both(IsInactive, search), s);
      FilterMembers(subs, Both(IsInactive, search), s);
    } else {
      FilterIsSubsequence(subs, search);
      FilterMultiplicity(subs, search, s);
      FilterMembers(subs, search, s);
    }
  }

  /** The `active` and `inactive` views split the list: together they hold every subscription once. */
  lemma StatusViewsPartition(subs: seq<NewsletterSubscription>, searchTerm: string)
    requires IsBlank(searchTerm)
    ensures |Filtered(subs, Filters(searchTerm, "active"))| + |Filtered(subs, Filters(searchTerm, "inactive"))| == |subs|
  {
    CountComplement(subs, IsActive, IsInactive);
  }

  /** The statistics cards: all subscriptions, active, unsubscribed, and subscribed this month. */
  datatype Stats = Stats(total: nat, active: nat, unsubscribed: nat, thisMonth: nat)

  /**
   * The cards, over the whole fetched list. Whether a subscription date falls in the current
   * month and year depends on the clock, so that test is a parameter.
   */
  function StatsOf(subs: seq<NewsletterSubscription>, inCurrentMonth: NewsletterSubscription -> bool): (c: Stats)
    ensures c.total == |subs|
    ensures c.active + c.unsubscribed == c.total
    ensures c.active == |Filtered(subs, Filters("", "active"))|
    ensures c.unsubscribed == |Filtered(subs, Filters("", "inactive"))|
    ensures c.thisMonth == |Filter(subs, inCurrentMonth)| && c.thisMonth <= c.total
  {
    CountComplement(subs, IsActive, IsInactive);
    Stats(|subs|, Count(subs, IsActive), Count(subs, IsInactive), Count(subs, inCurrentMonth))
  }

  /** The status column: an active subscription shows the success badge, any other the secondary one. */
  function StatusBadge(s: NewsletterSubscription): (b: Badge)
    ensures b == Success <==> s.isActive
    ensures b == Secondary <==> !s.isActive
  {
    if s.isActive then Success else Secondary
  }

  /** `x || 'N/A'` for an optional text: a missing or empty value shows `N/A`. */
  function OrNotAvailable(x: Option<string>): (r: string)
    ensures x.Some? && x.value != "" ==> r == x.value
    ensures x.None? || x.value == "" ==> r == "N/A"
  {
    if x.Some? && x.value != "" then x.value else "N/A"
  }

  /** The header row of the export. */
  const Header: seq<string> := ["Email", "Status", "Subscribed At", "Source", "Unsubscribed At"]

  /**
   * One exported row. `render` stands for `new Date(x).toLocaleString()`, which depends on
   * the browser's locale and time zone.
   */
  function CsvRow(s: NewsletterSubscription, render: string -> string): (row: seq<string>)
    ensures |row| == |Header|
    ensures row[0] == s.email
    ensures row[1] == (if s.isActive then "Active" else "Inactive")
    ensures row[2] == render(s.subscribedAt)
    ensures row[3] == OrNotAvailable(s.source)
    ensures row[4] == (if s.unsubscribedAt.Some? && s.unsubscribedAt.value != "" then render(s.unsubscribedAt.value) else "N/A")
  {
    [ s.email,
      if s.isActive then "Active" else "Inactive",
      render(s.subscribedAt),
      OrNotAvailable(s.source),
      if s.unsubscribedAt.Some? && s.unsubscribedAt.value != "" then render(s.unsubscribedAt.value) else "N/A" ]
  }

  /** The lines of the export: the header, then one comma-joined line per row shown. */
  function CsvLines(subs: seq<NewsletterSubscription>, render: string -> string): (lines: seq<string>)
    ensures |lines| == |subs| + 1
    ensures lines[0] == Join(Header, ",")
    ensures forall k :: 0 <= k < |subs| ==> lines[k + 1] == Join(CsvRow(subs[k], render), ",")
  {
    [Join(Header, ",")] + seq(|subs|, k requires 0 <= k < |subs| => Join(CsvRow(subs[k], render), ","))
  }

  /** `handleExportToCSV`: the lines joined by newlines; it exports the filtered rows, not the whole list. */
  function Export(subs: seq<NewsletterSubscription>, f: Filters, render: string -> string): string {
    Join(CsvLines(Filtered(subs, f), render), "\n")
  }

  /** Every exported subscription's email appears in the file. */
  lemma ExportKeepsEmails(subs: seq<NewsletterSubscription>, f: Filters, render: string -> string, k: nat)
    requires k < |Filtered(subs, f)|
    ensures Contains(Export(subs, f, render), Filtered(subs, f)[k].email)
  {
    var shown := Filtered(subs, f);
    var lines := CsvLines(shown, render);
    JoinKeepsItems(CsvRow(shown[k], render), ",", 0);
    JoinKeepsItems(lines, "\n", k + 1);
    ContainsTransitive(Export(subs, f, render), lines[k + 1], shown[k].email);
  }

  /** No cell of a row holds a line break. */
  predicate SingleLine(s: NewsletterSubscription, render: string -> string) {
    forall i :: 0 <= i < |CsvRow(s, render)| ==> '\n' !in CsvRow(s, render)[i]
  }

  /** A line of a row no cell of which holds a line break holds none either. */
  lemma RowLineSingle(s: NewsletterSubscription, render: string -> string)
    requires SingleLine(s, render)
    ensures '\n' !in Join(CsvRow(s, render), ",")
  {
    JoinAvoids(CsvRow(s, render), ",", '\n');
  }

  /**
   * While no cell holds a line break, splitting the file at its line breaks gives back the
   * header and one line per shown subscription, in order.
   */
  lemma ExportLines(subs: seq<NewsletterSubscription>, f: Filters, render: string -> string)
    requires forall k :: 0 <= k < |Filtered(subs, f)| ==> SingleLine(Filtered(subs, f)[k], render)
    ensures Split(Export(subs, f, render), '\n') == CsvLines(Filtered(subs, f), render)
    ensures |Split(Export(subs, f, render), '\n')| == |Filtered(subs, f)| + 1
  {
    var shown := Filtered(subs, f);
    var lines := CsvLines(shown, render);
    JoinAvoids(Header, ",", '\n');
    forall i | 1 <= i < |lines| ensures '\n' !in lines[i] {
      RowLineSingle(shown[i - 1], render);
    }
    SplitJoin(lines, '\n');
  }

  /** The row actions: unsubscribe is offered only for an active subscription; delete always. */
  datatype Actions = Actions(unsubscribe: bool, delete: bool)

  function RowActions(s: NewsletterSubscription): (a: Actions)
    ensures a.unsubscribe <==> s.isActive
    ensures a.delete
  {
    Actions(s.isActive, true)
  }

  function Id(s: NewsletterSubscription): int {
    s.id
  }

  /** `fetchSubscriptions`: the fetched list, or the error. */
  function HandleFetch(pg: Page<NewsletterSubscription>, fetched: Outcome<seq<NewsletterSubscription>>): (r: Page<NewsletterSubscription>)
    ensures fetched.Loaded? ==> r.items == fetched.value && r.error.None?
    ensures fetched.Failed? ==> r.items == pg.items && r.error == Some(TextOr(fetched.message, "Failed to load newsletter subscriptions"))
  {
    AfterFetch(pg, fetched, "Failed to load newsletter subscriptions")
  }

  /** `handleUnsubscribe`: a confirmed unsubscribe calls the backend; the banner names the email. */
  function HandleUnsubscribe(pg: Page<NewsletterSubscription>, s: NewsletterSubscription, confirmed: bool, outcome: Outcome<()>)
    : (r: (Option<int>, Page<NewsletterSubscription>))
    ensures !confirmed ==> r.0.None? && r.1 == pg
    ensures confirmed ==> r.0 == Some(s.id)
    ensures confirmed && outcome.Loaded? ==> r.1 == pg.(notice := Some(Unsubscribed(s.email)))
    ensures confirmed && outcome.Failed? ==> r.1 == pg.(error := Some(TextOr(outcome.message, "Failed to unsubscribe")))
  {
    var call := ConfirmedCall(confirmed, s, Id);
    if call.None? then (call, pg)
    else
      match outcome
      case Loaded(_) => (call, pg.(notice := Some(Unsubscribed(s.email))))
      case Failed(m) => (call, pg.(error := Some(TextOr(m, "Failed to unsubscribe"))))
  }

  /** `handleDelete`: a confirmed delete removes the subscription; the banner names the email. */
  function HandleDelete(pg: Page<NewsletterSubscription>, s: NewsletterSubscription, confirmed: bool, outcome: Outcome<()>)
    : (r: (Option<int>, Page<NewsletterSubscription>))
    ensures !confirmed ==> r.0.None? && r.1 == pg
    ensures confirmed ==> r.0 == Some(s.id)
    ensures confirmed && outcome.Loaded? ==> r.1.notice == Some(Deleted(s.email))
    ensures confirmed && outcome.Failed? ==> r.1.error == Some(TextOr(outcome.message, "Failed to delete subscription"))
  {
    var call := ConfirmedCall(confirmed, s, Id);
    if call.None? then (call, pg) else (call, AfterDelete(pg, s.email, outcome, "Failed to delete subscription"))
  }
}
