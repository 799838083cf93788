/**
 * The create/edit/delete cycle every list page runs: the add/edit modal, the detail
 * fetches that open it, the save that creates or updates, the confirmed delete and the
 * messages each outcome leaves on the page.
 */
module Crud {
  import opened Optional
  import opened FormErrors

  /** The add/edit modal: whether it is shown, and the record being edited (`None`: a new one). */
  datatype Modal<E> = Modal(show: bool, editing: Option<E>)

  /**
   * The success banner, naming the record it is about; the exact wording and its
   * three-second timeout are presentation.
   */
  datatype Notice =
    | Created(title: string)
    | Updated(title: string)
    | Deleted(title: string)
    | StatusUpdated
    | Unsubscribed(title: string)

  /**
   * What a list page keeps between events: the records, the modal, the record previewed,
   * the error banner and the success banner.
   */
  datatype Page<E> = Page(items: seq<E>, modal: Modal<E>, preview: Option<E>, error: Option<string>, notice: Option<Notice>)

  /** The outcome of one backend call; `Failed` carries the error's `message`, if any. */
  datatype Outcome<R> = Loaded(value: R) | Failed(message: Option<string>)

  /** The write a save issues. */
  datatype Save<D> = Create(data: D) | Update(id: int, data: D)

  /** A save either settles the page or rethrows to the form with this message. */
  datatype Saved<E> = Settled(page: Page<E>) | Rethrown(message: string)

  /** The page before its first fetch. */
  function Initial<E>(): (p: Page<E>)
    ensures p.items == [] && !p.modal.show && p.modal.editing.None? && p.error.None?
  {
    Page([], Modal(false, None), None, None, None)
  }

  /** `handleAddNew`: open the modal on an empty form. */
  function AddNew<E>(p: Page<E>): (r: Page<E>)
    ensures r.modal.show && r.modal.editing.None?
    ensures r == p.(modal := r.modal)
  {
    p.(modal := Modal(true, None))
  }

  /** `handleEdit` of the Books and Textbooks pages: open the modal on the record as listed. */
  function Edit<E>(p: Page<E>, e: E): (r: Page<E>)
    ensures r.modal.show && r.modal.editing == Some(e)
    ensures r == p.(modal := r.modal)
  {
    p.(modal := Modal(true, Some(e)))
  }

  /**
   * `handleEdit` of the pages that first fetch the full record: the fetched record opens
   * the modal; a failed fetch leaves the modal alone and shows the error.
   */
  function EditFetched<E>(p: Page<E>, fetched: Outcome<E>, fallback: string): (r: Page<E>)
    ensures fetched.Loaded? ==> r == Edit(p, fetched.value)
    ensures fetched.Failed? ==> r == p.(error := Some(TextOr(fetched.message, fallback)))
  {
    match fetched
    case Loaded(e) => Edit(p, e)
    case Failed(m) => p.(error := Some(TextOr(m, fallback)))
  }

  /** `handlePreview`: the fetched record is previewed; a failed fetch shows the error. */
  function PreviewFetched<E>(p: Page<E>, fetched: Outcome<E>, fallback: string): (r: Page<E>)
    ensures fetched.Loaded? ==> r == p.(preview := Some(fetched.value))
    ensures fetched.Failed? ==> r == p.(error := Some(TextOr(fetched.message, fallback)))
    ensures r.modal == p.modal && r.items == p.items
  {
    match fetched
    case Loaded(e) => p.(preview := Some(e))
    case Failed(m) => p.(error := Some(TextOr(m, fallback)))
  }

  /** `handleCancel`: hide the modal and forget the record being edited. */
  function Cancel<E>(p: Page<E>): (r: Page<E>)
    ensures !r.modal.show && r.modal.editing.None?
    ensures r == p.(modal := r.modal)
  {
    p.(modal := Modal(false, None))
  }

  /** The `?action=new` query parameter opens the empty form; any other value does nothing. */
  function OnQuery<E>(p: Page<E>, action: Option<string>): (r: Page<E>)
    ensures action == Some("new") ==> r == AddNew(p)
    ensures action != Some("new") ==> r == p
  {
    if action == Some("new") then AddNew(p) else p
  }

  /** `fetchX`: the fetched list replaces the records and clears the error, or the error is shown. */
  function AfterFetch<E>(p: Page<E>, fetched: Outcome<seq<E>>, fallback: string): (r: Page<E>)
    ensures fetched.Loaded? ==> r.items == fetched.value && r.error.None?
    ensures fetched.Failed? ==> r.items == p.items && r.error == Some(TextOr(fetched.message, fallback))
    ensures r.modal == p.modal && r.notice == p.notice
  {
    match fetched
    case Loaded(items) => p.(items := items, error := None)
    case Failed(m) => p.(error := Some(TextOr(m, fallback)))
  }

  /** `handleSubmit`: update the record being edited, or create a new one. */
  function SaveCall<E, D>(p: Page<E>, data: D, id: E -> int): (s: Save<D>)
    ensures s.data == data
    ensures s.Update? <==> p.modal.editing.Some?
    ensures s.Update? ==> s.id == id(p.modal.editing.value)
  {
    match p.modal.editing
    case Some(e) => Update(id(e), data)
    case None => Create(data)
  }

  /**
   * What follows the write: on success the modal closes, the edited record is forgotten and
   * a banner names the title; on failure the error is rethrown to the form with the
   * backend's message or the page's fallback.
   */
  function AfterSave<E>(p: Page<E>, title: string, outcome: Outcome<()>, fallback: string): (r: Saved<E>)
    ensures outcome.Loaded? <==> r.Settled?
    ensures r.Settled? ==> !r.page.modal.show && r.page.modal.editing.None? && r.page.items == p.items
    ensures r.Settled? ==> r.page.notice == Some(if p.modal.editing.Some? then Updated(title) else Created(title))
    ensures r.Rethrown? ==> r.message == TextOr(outcome.message, fallback)
  {
    match outcome
    case Loaded(_) => Settled(Cancel(p).(notice := Some(if p.modal.editing.Some? then Updated(title) else Created(title))))
    case Failed(m) => Rethrown(TextOr(m, fallback))
  }

  /**
   * A rethrown save failure reaches the form, which shows it as its submit error: the page's
   * message is never empty, so the form's own fallback never shows.
   */
  lemma RethrownShownByForm<F, E>(p: Page<E>, title: string, message: Option<string>, fallback: string)
    requires fallback != ""
    ensures var r := AfterSave(p, title, Failed(message), fallback);
      && r.Rethrown?
      && SubmitFailure<F>(Some(r.message)) == map[Submit := Text(TextOr(message, fallback))]
  {
  }

  /**
   * `handleDelete` (and the newsletter's `handleUnsubscribe`): only a confirmed action
   * issues the call, for that record's id; a declined one changes nothing.
   */
  function ConfirmedCall<E>(confirmed: bool, e: E, id: E -> int): (r: Option<int>)
    ensures r.Some? <==> confirmed
    ensures r.Some? ==> r.value == id(e)
  {
    if confirmed then Some(id(e)) else None
  }

  /** What follows a delete call: a banner naming the record, or the error. */
  function AfterDelete<E>(p: Page<E>, title: string, outcome: Outcome<()>, fallback: string): (r: Page<E>)
    ensures outcome.Loaded? ==> r == p.(notice := Some(Deleted(title)))
    ensures outcome.Failed? ==> r == p.(error := Some(TextOr(outcome.message, fallback)))
  {
    match outcome
    case Loaded(_) => p.(notice := Some(Deleted(title)))
    case Failed(m) => p.(error := Some(TextOr(m, fallback)))
  }

  /**
   * After a cancelled or completed edit, the next save creates rather than overwriting the
   * record that was being edited.
   */
  lemma NoStaleEdit<E, D>(p: Page<E>, e: E, data: D, id: E -> int)
    ensures SaveCall(Cancel(Edit(p, e)), data, id) == Create(data)
    ensures SaveCall(AddNew(Edit(p, e)), data, id) == Create(data)
    ensures SaveCall(Edit(AddNew(p), e), data, id) == Update(id(e), data)
  {
  }

  /** A successful save of an edit leaves the page ready to create. */
  lemma SettledSaveCreatesNext<E, D>(p: Page<E>, e: E, title: string, data: D, id: E -> int, fallback: string)
    ensures var r := AfterSave(Edit(p, e), title, Loaded(()), fallback);
      r.Settled? && r.page.notice == Some(Updated(title)) && SaveCall(AddNew(r.page), data, id) == Create(data)
  {
  }
}
