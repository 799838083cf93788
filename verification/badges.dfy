/** The colour classes of the status and category badges in the list tables. */
module Badges {
  import opened Optional

  /** `badge-primary`, `badge-success`, `badge-info`, `badge-warning`, `badge-secondary`, `badge-default`. */
  datatype Badge = Primary | Success | Info | Warning | Secondary | Default

  /**
   * The status column of the thesis and research-paper tables: published is success, under
   * review is warning, and anything else, a missing status included, is secondary.
   */
  function PublicationBadge(status: Option<string>): (b: Badge)
    ensures b == Success <==> status == Some("published")
    ensures b == Warning <==> status == Some("under-review")
    ensures b in {Success, Warning, Secondary}
  {
    if status == Some("published") then Success
    else if status == Some("under-review") then Warning
    else Secondary
  }
}
