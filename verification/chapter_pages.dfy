/**
 * The two chapter-management pages, for books and for textbooks. They differ only in the
 * parent they list and in two messages, so one model with a `Kind` serves both: the
 * parent selector and its first-parent default, the chapter table sorted by chapter
 * number, and the chapter create/edit/delete cycle under the selected parent.
 */
module ChapterPages {
  import opened Optional
  import opened Strings
  import opened Numbers
  import opened Seqs
  import opened Entities
  import opened Crud
  import ChapterForm
  import Api

  /** Which page: chapters of books, or chapters of textbooks. */
  datatype Kind = OfBooks | OfTextbooks

  /** The fallback when the parent list cannot be fetched. */
  function ParentsFallback(k: Kind): string {
    match k
    case OfBooks => "Failed to load books"
    case OfTextbooks => "Failed to load textbooks"
  }

  /** The alert when "Add Chapter" is pressed with no parent selected. */
  function SelectFirst(k: Kind): string {
    match k
    case OfBooks => "Please select a book first"
    case OfTextbooks => "Please select a textbook first"
  }

  /** The selected parent as fetched with its chapters; `chapters` may be missing. */
  datatype ParentWithChapters = ParentWithChapters(id: int, title: string, author: string, chapters: Option<seq<Chapter>>)

  /**
   * What the page keeps: the ids of the fetched parents, the selector's value (a string,
   * `""` for none), the selected parent with its chapters, and the list-page state of the
   * chapters (modal, preview, banners).
   */
  datatype State = State(parentIds: seq<int>, selected: string, parent: Option<ParentWithChapters>, page: Page<Chapter>)

  /** The page as it mounts: the route's parent id, or nothing selected. */
  function Initial(routeId: Option<string>): (st: State)
    ensures routeId.Some? && routeId.value != "" ==> st.selected == routeId.value
    ensures routeId.None? || routeId.value == "" ==> st.selected == ""
    ensures st.parent.None? && st.parentIds == [] && st.page == Crud.Initial()
  {
    State([], if routeId.Some? && routeId.value != "" then routeId.value else "", None, Crud.Initial())
  }

  /** After the parents arrive: keep a selection, or select the first parent when there is one. */
  function AutoSelect(selected: string, ids: seq<int>): (r: string)
    ensures selected != "" ==> r == selected
    ensures selected == "" && |ids| > 0 ==> r == IntToString(ids[0]) && r != ""
    ensures selected == "" && |ids| == 0 ==> r == ""
  {
    if selected == "" && |ids| > 0 then IntToString(ids[0]) else selected
  }

  /** `fetchBooks` / `fetchTextbooks`: the parents replace the list; a failure shows the error. */
  function AfterParents(k: Kind, st: State, fetched: Outcome<seq<int>>): (r: State)
    ensures fetched.Loaded? ==> r == st.(parentIds := fetched.value, selected := AutoSelect(st.selected, fetched.value))
    ensures fetched.Failed? ==> r == st.(page := st.page.(error := Some(TextOr(fetched.message, ParentsFallback(k)))))
  {
    match fetched
    case Loaded(ids) => st.(parentIds := ids, selected := AutoSelect(st.selected, ids))
    case Failed(m) => st.(page := st.page.(error := Some(TextOr(m, ParentsFallback(k)))))
  }

  /** The chapter fetch the selector triggers: one for the selected id, none while nothing is selected. */
  function ChapterFetch(st: State): (id: Option<string>)
    ensures id.Some? <==> st.selected != ""
    ensures id.Some? ==> id.value == st.selected
  {
    if st.selected != "" then Some(st.selected) else None
  }

  /**
   * With nothing selected, a non-empty parent list selects its first parent, and the chapter
   * fetch then asks for that parent: its id, printed and parsed back, is the first id.
   */
  lemma FirstParentFetched(k: Kind, st: State, ids: seq<int>)
    requires st.selected == "" && |ids| > 0
    ensures var r := AfterParents(k, st, Loaded(ids));
      && ChapterFetch(r).Some?
      && ParseInt(ChapterFetch(r).value) == Some(ids[0])
  {
    ParseIntOfIntToString(ids[0]);
  }

  /** A selection made before the parents arrive (the route's id, say) is never overridden. */
  lemma SelectionKept(k: Kind, st: State, fetched: Outcome<seq<int>>)
    requires st.selected != ""
    ensures AfterParents(k, st, fetched).selected == st.selected
  {
  }

  /** `fetchBookWithChapters`: the fetched parent and its chapters, or the error. */
  function AfterChapters(st: State, fetched: Outcome<ParentWithChapters>): (r: State)
    ensures fetched.Loaded? ==> r.parent == Some(fetched.value) && r.page.error.None?
    ensures fetched.Failed? ==> r.parent == st.parent && r.page.error == Some(TextOr(fetched.message, "Failed to load chapters"))
    ensures r.selected == st.selected && r.page.modal == st.page.modal
  {
    match fetched
    case Loaded(p) => st.(parent := Some(p), page := st.page.(error := None))
    case Failed(m) => st.(page := st.page.(error := Some(TextOr(m, "Failed to load chapters"))))
  }

  /** `handleBookChange`: the new selection, with the previous parent's chapters dropped. */
  function ChangeParent(st: State, id: string): (r: State)
    ensures r.selected == id && r.parent.None?
    ensures r.parentIds == st.parentIds && r.page == st.page
    ensures ChapterFetch(r) == (if id == "" then None else Some(id))
  {
    st.(selected := id, parent := None)
  }

  /**
   * `handleAddNew`: with no parent selected it alerts and changes nothing; otherwise it
   * opens the empty form.
   */
  function AddNew(k: Kind, st: State): (r: (State, Option<string>))
    ensures st.selected == "" ==> r.0 == st && r.1 == Some(SelectFirst(k))
    ensures st.selected != "" ==> r.1.None? && r.0 == st.(page := Crud.AddNew(st.page))
    ensures st.selected != "" ==> r.0.page.modal.show && r.0.page.modal.editing.None?
  {
    if st.selected == "" then (st, Some(SelectFirst(k))) else (st.(page := Crud.AddNew(st.page)), None)
  }

  /** `handleEdit`: the full chapter is fetched; only a fetched chapter opens the form. */
  function HandleEdit(st: State, fetched: Outcome<Chapter>): (r: State)
    ensures fetched.Loaded? ==> r.page.modal == Modal(true, Some(fetched.value))
    ensures fetched.Failed? ==> r.page.modal == st.page.modal && r.page.error == Some(TextOr(fetched.message, "Failed to load chapter details"))
    ensures r.selected == st.selected && r.parent == st.parent
  {
    st.(page := EditFetched(st.page, fetched, "Failed to load chapter details"))
  }

  /** `handlePreview`: the full chapter is fetched and previewed. */
  function HandlePreview(st: State, fetched: Outcome<Chapter>): (r: State)
    ensures fetched.Loaded? ==> r.page.preview == Some(fetched.value)
    ensures fetched.Failed? ==> r.page.preview == st.page.preview && r.page.error == Some(TextOr(fetched.message, "Failed to load chapter for preview"))
    ensures r.selected == st.selected && r.page.modal == st.page.modal
  {
    st.(page := PreviewFetched(st.page, fetched, "Failed to load chapter for preview"))
  }

  /** The write a chapter save issues: a create names its parent by the selector's value. */
  datatype ChapterSave =
    | CreateChapter(parentId: string, data: ChapterForm.Payload)
    | UpdateChapter(id: int, data: ChapterForm.Payload)

  /**
   * `handleSubmit`: an edit updates the chapter being edited; otherwise a chapter is created
   * under the selected parent. What follows is the list pages' save cycle, with the chapter
   * title in the banner.
   */
  function HandleSubmit(st: State, data: ChapterForm.Payload, outcome: Outcome<()>): (r: (ChapterSave, Saved<Chapter>))
    ensures st.page.modal.editing.Some? ==> r.0 == UpdateChapter(st.page.modal.editing.value.id, data)
    ensures st.page.modal.editing.None? ==> r.0 == CreateChapter(st.selected, data)
    ensures r.1 == AfterSave(st.page, data.chapterTitle, outcome, "Failed to save chapter")
    ensures r.1.Settled? ==> !r.1.page.modal.show && r.1.page.modal.editing.None?
  {
    var call :=
      match st.page.modal.editing
      case Some(c) => UpdateChapter(c.id, data)
      case None => CreateChapter(st.selected, data);
    (call, AfterSave(st.page, data.chapterTitle, outcome, "Failed to save chapter"))
  }

  /**
   * A chapter created through "Add Chapter" is created under the parent selected at that
   * moment, never with an empty parent id.
   */
  lemma CreatedUnderSelection(k: Kind, st: State, data: ChapterForm.Payload, outcome: Outcome<()>)
    requires AddNew(k, st).1.None?
    ensures HandleSubmit(AddNew(k, st).0, data, outcome).0 == CreateChapter(st.selected, data)
    ensures st.selected != ""
  {
  }

  /** A number of the payload as JSON: `NaN` (`None`) is sent as `null`. */
  function NumberJson(n: Option<int>): (j: Api.Json)
    ensures n.Some? ==> j == Api.JNum(n.value as real)
    ensures n.None? ==> j == Api.JNull
  {
    if n.Some? then Api.JNum(n.value as real) else Api.JNull
  }

  /** The chapter form's payload as the JSON object the service sends. */
  function PayloadJson(p: ChapterForm.Payload): map<string, Api.Json> {
    map[
      "chapterNumber" := NumberJson(p.chapterNumber),
      "chapterTitle" := Api.JStr(p.chapterTitle),
      "chapterSubtitle" := Api.JStr(p.chapterSubtitle),
      "contentHtml" := Api.JStr(p.contentHtml),
      "summary" := Api.JStr(p.summary),
      "wordCount" := NumberJson(p.wordCount),
      "readingTimeMinutes" := NumberJson(p.readingTimeMinutes),
      "displayOrder" := NumberJson(p.displayOrder)]
  }

  /** Reads a whole number back from JSON: a number with no fraction; anything else is none. */
  function IntOfJson(j: Api.Json): Option<int> {
    if j.JNum? && j.n == j.n.Floor as real then Some(j.n.Floor) else None
  }

  /** Reading a sent number back gives the parsed number, and `null` reads back as none. */
  lemma NumberJsonRoundTrip(n: Option<int>)
    ensures IntOfJson(NumberJson(n)) == n
    ensures NumberJson(n).JNull? <==> n.None?
  {
  }

  /**
   * The JSON body carries the eight payload properties and nothing else, and each reads
   * back as what the form produced: the texts as strings, the numbers as numbers or `null`.
   */
  lemma PayloadJsonReadsBack(p: ChapterForm.Payload)
    ensures PayloadJson(p).Keys == {"chapterNumber", "chapterTitle", "chapterSubtitle", "contentHtml",
      "summary", "wordCount", "readingTimeMinutes", "displayOrder"}
    ensures var o := PayloadJson(p);
      && IntOfJson(o["chapterNumber"]) == p.chapterNumber
      && o["chapterTitle"] == Api.JStr(p.chapterTitle)
      && o["chapterSubtitle"] == Api.JStr(p.chapterSubtitle)
      && o["contentHtml"] == Api.JStr(p.contentHtml)
      && o["summary"] == Api.JStr(p.summary)
      && IntOfJson(o["wordCount"]) == p.wordCount
      && IntOfJson(o["readingTimeMinutes"]) == p.readingTimeMinutes
      && IntOfJson(o["displayOrder"]) == p.displayOrder
  {
    NumberJsonRoundTrip(p.chapterNumber);
    NumberJsonRoundTrip(p.wordCount);
    NumberJsonRoundTrip(p.readingTimeMinutes);
    NumberJsonRoundTrip(p.displayOrder);
  }

  /** A chapter form that is sent puts a chapter number of at least 1 into the body. */
  lemma SentChapterNumberJson(f: ChapterForm.Form)
    requires ChapterForm.HandleSubmit(f).Sent?
    requires NumberOf(f.chapterNumber).Some?
    ensures var j := PayloadJson(ChapterForm.HandleSubmit(f).payload)["chapterNumber"];
      j.JNum? && j.n >= 1.0 && IntOfJson(j).Some?
  {
    ChapterForm.SentChapterNumberPositive(f);
  }

  /**
   * The service call a chapter save makes. The books page calls `createChapter(selectedId, data)`
   * or `updateChapter(id, data)`; the textbooks page calls `createTextbookChapter` and
   * `updateTextbookChapter`, which the service does not define, so it has no request to send.
   */
  function SaveRequest(k: Kind, s: ChapterSave): Option<Api.Request> {
    match k
    case OfTextbooks => None
    case OfBooks =>
      match s
      case CreateChapter(parentId, data) => Some(Api.CreateChapter(parentId, PayloadJson(data)))
      case UpdateChapter(id, data) => Some(Api.UpdateChapter(Api.IdText(id), Api.JObj(PayloadJson(data))))
  }

  /**
   * On the books page a new chapter is posted with the selected parent's id (the selector's
   * string, sent as a JSON string) and the title typed, and an edited chapter is put to its
   * own path. The textbooks page issues no request the service defines.
   */
  lemma SubmitRequest(k: Kind, st: State, data: ChapterForm.Payload, outcome: Outcome<()>)
    ensures k == OfBooks && st.page.modal.editing.None? ==>
      var r := SaveRequest(k, HandleSubmit(st, data, outcome).0);
      && r.Some? && r.value.verb == Api.Post && r.value.path == "/Chapters"
      && Api.Property(r.value.body.value, "bookId") == Some(Api.JStr(st.selected))
      && Api.Property(r.value.body.value, "chapterTitle") == Some(Api.JStr(data.chapterTitle))
    ensures k == OfBooks && st.page.modal.editing.Some? ==>
      SaveRequest(k, HandleSubmit(st, data, outcome).0)
        == Some(Api.UpdateChapter(Api.IdText(st.page.modal.editing.value.id), Api.JObj(PayloadJson(data))))
    ensures k == OfTextbooks ==> SaveRequest(k, HandleSubmit(st, data, outcome).0).None?
  {
    if k == OfBooks && st.page.modal.editing.None? {
      Api.CreateChapterBody(st.selected, PayloadJson(data));
      assert "chapterTitle" in PayloadJson(data);
    }
  }

  function Id(c: Chapter): int {
    c.id
  }

  /** `handleDelete`: a declined confirmation issues no call; the banner names the chapter. */
  function HandleDelete(st: State, c: Chapter, confirmed: bool, outcome: Outcome<()>): (r: (Option<int>, State))
    ensures !confirmed ==> r.0.None? && r.1 == st
    ensures confirmed ==> r.0 == Some(c.id)
    ensures confirmed && outcome.Loaded? ==> r.1.page.notice == Some(Deleted(c.chapterTitle))
    ensures confirmed && outcome.Failed? ==> r.1.page.error == Some(TextOr(outcome.message, "Failed to delete chapter"))
    ensures r.1.selected == st.selected
  {
    var call := ConfirmedCall(confirmed, c, Id);
    if call.None? then (call, st)
    else (call, st.(page := AfterDelete(st.page, c.chapterTitle, outcome, "Failed to delete chapter")))
  }

  /** The count in the header: `chapters?.length || 0`. */
  function ChapterCount(p: ParentWithChapters): (n: nat)
    ensures p.chapters.Some? ==> n == |p.chapters.value|
    ensures p.chapters.None? ==> n == 0
  {
    if p.chapters.Some? then |p.chapters.value| else 0
  }

  /** The empty state shows exactly when the header counts no chapter. */
  predicate ShowsEmptyState(p: ParentWithChapters) {
    p.chapters.None? || |p.chapters.value| == 0
  }

  lemma EmptyStateIffNoChapters(p: ParentWithChapters)
    ensures ShowsEmptyState(p) <==> ChapterCount(p) == 0
  {
  }

  function ChapterNumber(c: Chapter): int {
    c.chapterNumber
  }

  /** The table's rows: `chapters.sort((a, b) => a.chapterNumber - b.chapterNumber)`. */
  function Rows(p: ParentWithChapters): (rows: seq<Chapter>)
    ensures |rows| == ChapterCount(p)
  {
    SortBy(p.chapters.GetOr([]), ChapterNumber)
  }

  /**
   * The rows are the parent's chapters, each exactly as often as fetched, in ascending
   * chapter number; chapters sharing a number keep their fetched order (the sort is stable).
   */
  lemma RowsSpec(p: ParentWithChapters, n: int)
    ensures SortedBy(Rows(p), ChapterNumber)
    ensures multiset(Rows(p)) == multiset(p.chapters.GetOr([]))
    ensures WithKey(Rows(p), ChapterNumber, n) == WithKey(p.chapters.GetOr([]), ChapterNumber, n)
  {
    SortBySpec(p.chapters.GetOr([]), ChapterNumber);
    SortByStable(p.chapters.GetOr([]), ChapterNumber, n);
  }

  /** The line under a chapter title: its summary's first 100 code units, `...` when longer. */
  function SummaryPreview(c: Chapter): (r: Option<seq<Unit>>)
    ensures r.Some? <==> c.summary.Some? && c.summary.value != ""
    ensures r.Some? ==> r.value == Preview(c.summary.value, 100)
  {
    if c.summary.Some? && c.summary.value != "" then Some(Preview(c.summary.value, 100)) else None
  }

  /**
   * The preview is the summary itself up to 100 code units, else its first 100 code units and
   * `...`; for text within the Basic Multilingual Plane that is the first 100 characters.
   */
  lemma SummaryPreviewShape(c: Chapter)
    requires SummaryPreview(c).Some?
    ensures var d := c.summary.value; var r := SummaryPreview(c).value;
      && |r| <= 103
      && (Utf16Length(d) <= 100 ==> r == Utf16(d))
      && (Utf16Length(d) > 100 ==> r == Utf16(d)[..100] + Utf16("..."))
    ensures var d := c.summary.value; var r := SummaryPreview(c).value;
      (forall i :: 0 <= i < |d| ==> d[i] as int < 0x1_0000) ==>
        && (|d| <= 100 ==> r == Utf16(d))
        && (|d| > 100 ==> r == Utf16(d[..100] + "..."))
  {
    var d := c.summary.value;
    PreviewBounded(d, 100);
    Utf16LengthIsEncodingLength(d);
    if forall i :: 0 <= i < |d| ==> d[i] as int < 0x1_0000 {
      Utf16LengthBounds(d);
      if |d| > 100 {
        Utf16PrefixOfBmp(d, 100);
        Utf16Append(d[..100], "...");
      }
    }
  }

  /** The word-count cell: `wordCount || '-'`; a zero count shows `-` like a missing one. */
  function WordCountCell(c: Chapter): (cell: string)
    ensures cell == "-" <==> c.wordCount.None? || c.wordCount.value == 0
  {
    if c.wordCount.Some? && c.wordCount.value != 0 then IntToString(c.wordCount.value) else "-"
  }

  /** The reading-time cell: `N min` for a non-zero time, `-` otherwise. */
  function ReadingTimeCell(c: Chapter): (cell: string)
    ensures cell == "-" <==> c.readingTimeMinutes.None? || c.readingTimeMinutes.value == 0
  {
    if c.readingTimeMinutes.Some? && c.readingTimeMinutes.value != 0 then IntToString(c.readingTimeMinutes.value) + " min" else "-"
  }

  /** A shown count reads back as the chapter's count. */
  lemma CellsReadBack(c: Chapter)
    ensures WordCountCell(c) != "-" ==> ParseInt(WordCountCell(c)) == c.wordCount
    ensures ReadingTimeCell(c) != "-" ==> ParseInt(ReadingTimeCell(c)) == c.readingTimeMinutes
  {
    if c.wordCount.Some? && c.wordCount.value != 0 {
      ParseIntOfIntToString(c.wordCount.value);
    }
    if c.readingTimeMinutes.Some? && c.readingTimeMinutes.value != 0 {
      ParseIntOfIntToStringThen(c.readingTimeMinutes.value, " min");
    }
  }

  /** The subtitle cell: `chapterSubtitle || '-'`. */
  function SubtitleCell(c: Chapter): (cell: string)
    ensures c.chapterSubtitle.Some? && c.chapterSubtitle.value != "" ==> cell == c.chapterSubtitle.value
    ensures c.chapterSubtitle.None? || c.chapterSubtitle.value == "" ==> cell == "-"
  {
    if c.chapterSubtitle.Some? && c.chapterSubtitle.value != "" then c.chapterSubtitle.value else "-"
  }

  /** The preview's subtitle heading, shown only for a present, non-empty subtitle. */
  function PreviewSubtitle(c: Chapter): Option<string> {
    if c.chapterSubtitle.Some? && c.chapterSubtitle.value != "" then c.chapterSubtitle else None
  }

  /**
   * The table never shows an empty subtitle cell: it shows what the preview's heading shows,
   * and `-` exactly when the preview has no subtitle heading or the subtitle is itself `-`.
   */
  lemma SubtitleCellMatchesPreview(c: Chapter)
    ensures SubtitleCell(c) != ""
    ensures PreviewSubtitle(c).Some? ==> SubtitleCell(c) == PreviewSubtitle(c).value
    ensures SubtitleCell(c) == "-" <==> PreviewSubtitle(c).None? || c.chapterSubtitle.value == "-"
  {
  }
}
