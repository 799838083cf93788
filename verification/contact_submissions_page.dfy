/**
 * The Contact Submissions page: the status, type and search filters, the status badge,
 * the status counts, the preview with its status control, and delete.
 */
module ContactSubmissionsPage {
  import opened Optional
  import opened Strings
  import opened Seqs
  import opened Search
  import opened Entities
  import opened Crud
  import opened Badges

  /** The three controls above the table; `"all"` switches a dropdown filter off. */
  datatype Filters = Filters(searchTerm: string, status: string, contactType: string)

  /** The controls as the page opens. */
  const Unfiltered := Filters("", "all", "all")

  function HasStatus(status: string): ContactSubmission -> bool {
    (s: ContactSubmission) => s.status == status
  }

  function HasType(contactType: string): ContactSubmission -> bool {
    (s: ContactSubmission) => s.contactType == contactType
  }

  /** A submission matches a lowercased term through its name, email, subject, organization or message. */
  predicate Matches(s: ContactSubmission, term: string) {
    || Mentions(s.name, term)
    || Mentions(s.email, term)
    || Mentions(s.subject, term)
    || MaybeMentions(s.organization, term)
    || Mentions(s.message, term)
  }

  /** The rows shown: the status filter, then the type filter, then the search, each only while set. */
  function Filtered(subs: seq<ContactSubmission>, f: Filters): seq<ContactSubmission> {
    var byStatus := FilterWhen(f.status != "all", subs, HasStatus(f.status));
    var byType := FilterWhen(f.contactType != "all", byStatus, HasType(f.contactType));
    SearchBy(byType, f.searchTerm, Matches)
  }

  /** Whether one submission passes all three controls. */
  function Shown(f: Filters): ContactSubmission -> bool {
    Both(Both(PassWhen(f.status != "all", HasStatus(f.status)), PassWhen(f.contactType != "all", HasType(f.contactType))),
         SearchPass(Matches, f.searchTerm))
  }

  /** The three filters in sequence are one filter by all three conditions. */
  lemma FilteredIsOneFilter(subs: seq<ContactSubmission>, f: Filters)
    ensures Filtered(subs, f) == Filter(subs, Shown(f))
  {
    var p1 := PassWhen(f.status != "all", HasStatus(f.status));
    var p2 := PassWhen(f.contactType != "all", HasType(f.contactType));
    var p3 := SearchPass(Matches, f.searchTerm);
    FilterWhenIsFilter(f.status != "all", subs, HasStatus(f.status));
    var byStatus := Filter(subs, p1);
    FilterWhenIsFilter(f.contactType != "all", byStatus, HasType(f.contactType));
    FilterTwice(subs, p1, p2, Both(p1, p2));
    var byType := Filter(subs, Both(p1, p2));
    SearchByIsFilter(byType, f.searchTerm, Matches);
    FilterTwice(subs, Both(p1, p2), p3, Shown(f));
  }

  /**
   * A submission is shown exactly when it is in the list, has the chosen status and type
   * (or the dropdown is on `all`) and matches the search (or the box is blank); the shown
   * rows keep the list's order.
   */
  lemma FilteredSpec(subs: seq<ContactSubmission>, f: Filters, s: ContactSubmission)
    ensures s in Filtered(subs, f) <==>
      && s in subs
      && (f.status == "all" || s.status == f.status)
      && (f.contactType == "all" || s.contactType == f.contactType)
      && (IsBlank(f.searchTerm) || Matches(s, Lower(f.searchTerm)))
    ensures IsSubsequence(Filtered(subs, f), subs)
    ensures multiset(Filtered(subs, f))[s] == if s in Filtered(subs, f) then multiset(subs)[s] else 0
  {
    FilteredIsOneFilter(subs, f);
    FilterMembers(subs, Shown(f), s);
    FilterIsSubsequence(subs, Shown(f));
    FilterMultiplicity(subs, Shown(f), s);
  }

  /**
   * Choosing a status or a type only narrows what is shown: the rows stay a subsequence
   * of those shown with that dropdown on `all`.
   */
  lemma DropdownNarrows(subs: seq<ContactSubmission>, f: Filters)
    ensures IsSubsequence(Filtered(subs, f), Filtered(subs, f.(status := "all")))
    ensures IsSubsequence(Filtered(subs, f), Filtered(subs, f.(contactType := "all")))
  {
    FilteredIsOneFilter(subs, f);
    FilteredIsOneFilter(subs, f.(status := "all"));
    FilteredIsOneFilter(subs, f.(contactType := "all"));
    StricterFilterIsSubsequence(subs, Shown(f), Shown(f.(status := "all")));
    StricterFilterIsSubsequence(subs, Shown(f), Shown(f.(contactType := "all")));
  }

  /** `getStatusBadgeClass`: one badge per workflow status, and the default badge otherwise. */
  function StatusBadge(status: string): (b: Badge)
    ensures b == Warning <==> status == "Pending"
    ensures b == Info <==> status == "InProgress"
    ensures b == Success <==> status == "Resolved"
    ensures b == Secondary <==> status == "Closed"
    ensures b == Default <==> status !in {"Pending", "InProgress", "Resolved", "Closed"}
  {
    match status
    case "Pending" => Warning
    case "InProgress" => Info
    case "Resolved" => Success
    case "Closed" => Secondary
    case _ => Default
  }

  /** The statistics cards: all submissions, and the pending, in-progress and resolved ones. */
  datatype Stats = Stats(total: nat, pending: nat, inProgress: nat, resolved: nat)

  /** The cards, counted over the whole fetched list (not the filtered rows). */
  function StatsOf(subs: seq<ContactSubmission>): (c: Stats)
    ensures c.total == |subs|
    ensures c.pending + c.inProgress + c.resolved <= c.total
    ensures c.pending == |Filter(subs, HasStatus("Pending"))|
    ensures c.inProgress == |Filter(subs, HasStatus("InProgress"))|
    ensures c.resolved == |Filter(subs, HasStatus("Resolved"))|
  {
    CountDisjoint(subs, HasStatus("Pending"), HasStatus("InProgress"), HasStatus("Resolved"));
    Stats(|subs|, Count(subs, HasStatus("Pending")), Count(subs, HasStatus("InProgress")), Count(subs, HasStatus("Resolved")))
  }

  /** Each status card counts the rows its status filter shows with an empty search and any type. */
  lemma CardsMatchFilters(subs: seq<ContactSubmission>)
    ensures StatsOf(subs).pending == |Filtered(subs, Unfiltered.(status := "Pending"))|
    ensures StatsOf(subs).inProgress == |Filtered(subs, Unfiltered.(status := "InProgress"))|
    ensures StatsOf(subs).resolved == |Filtered(subs, Unfiltered.(status := "Resolved"))|
  {
  }

  function Id(s: ContactSubmission): int {
    s.id
  }

  /** `fetchSubmissions`: the fetched list, or the error. */
  function HandleFetch(pg: Page<ContactSubmission>, fetched: Outcome<seq<ContactSubmission>>): (r: Page<ContactSubmission>)
    ensures fetched.Loaded? ==> r.items == fetched.value && r.error.None?
    ensures fetched.Failed? ==> r.items == pg.items && r.error == Some(TextOr(fetched.message, "Failed to load contact submissions"))
  {
    AfterFetch(pg, fetched, "Failed to load contact submissions")
  }

  /** `handlePreview`: the full submission is fetched and previewed. */
  function HandlePreview(pg: Page<ContactSubmission>, fetched: Outcome<ContactSubmission>): (r: Page<ContactSubmission>)
    ensures fetched.Loaded? ==> r.preview == Some(fetched.value)
    ensures fetched.Failed? ==> r.preview == pg.preview && r.error == Some(TextOr(fetched.message, "Failed to load submission details"))
  {
    PreviewFetched(pg, fetched, "Failed to load submission details")
  }

  /** `handleDelete`: a declined confirmation issues no call; the banner names the sender. */
  function HandleDelete(pg: Page<ContactSubmission>, s: ContactSubmission, confirmed: bool, outcome: Outcome<()>)
    : (r: (Option<int>, Page<ContactSubmission>))
    ensures !confirmed ==> r.0.None? && r.1 == pg
    ensures confirmed ==> r.0 == Some(s.id)
    ensures confirmed && outcome.Loaded? ==> r.1.notice == Some(Deleted(s.name))
    ensures confirmed && outcome.Failed? ==> r.1.error == Some(TextOr(outcome.message, "Failed to delete submission"))
  {
    var call := ConfirmedCall(confirmed, s, Id);
    if call.None? then (call, pg) else (call, AfterDelete(pg, s.name, outcome, "Failed to delete submission"))
  }

  /** The write `handleUpdateStatus` issues: a patch of the status alone. */
  datatype StatusPatch = StatusPatch(id: int, status: string)

  /**
   * `handleUpdateStatus`: after a successful patch the banner confirms it and, when the
   * submission is the one previewed, the preview shows the new status; a failed patch
   * shows the error and leaves the preview alone.
   */
  function HandleUpdateStatus(pg: Page<ContactSubmission>, id: int, newStatus: string, outcome: Outcome<()>)
    : (r: (StatusPatch, Page<ContactSubmission>))
    ensures r.0 == StatusPatch(id, newStatus)
    ensures outcome.Loaded? ==> r.1.notice == Some(StatusUpdated)
    ensures outcome.Loaded? && pg.preview.Some? && pg.preview.value.id == id ==>
      r.1.preview == Some(pg.preview.value.(status := newStatus))
    ensures outcome.Failed? || pg.preview.None? || pg.preview.value.id != id ==> r.1.preview == pg.preview
    ensures outcome.Failed? ==> r.1 == pg.(error := Some(TextOr(outcome.message, "Failed to update status")))
    ensures r.1.items == pg.items && r.1.modal == pg.modal
  {
    var patch := StatusPatch(id, newStatus);
    match outcome
    case Failed(m) => (patch, pg.(error := Some(TextOr(m, "Failed to update status"))))
    case Loaded(_) =>
      var preview := if pg.preview.Some? && pg.preview.value.id == id then Some(pg.preview.value.(status := newStatus)) else pg.preview;
      (patch, pg.(notice := Some(StatusUpdated), preview := preview))
  }

  /**
   * The preview's own status control patches the previewed submission, so after success
   * the preview shows the chosen status and is otherwise the same submission.
   */
  lemma PreviewControlUpdatesPreview(pg: Page<ContactSubmission>, newStatus: string)
    requires pg.preview.Some?
    ensures var r := HandleUpdateStatus(pg, pg.preview.value.id, newStatus, Loaded(())).1;
      && r.preview.Some?
      && r.preview.value.status == newStatus
      && r.preview.value == pg.preview.value.(status := newStatus)
      && StatusBadge(r.preview.value.status) == StatusBadge(newStatus)
  {
  }
}
