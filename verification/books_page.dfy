/** The Books list page: search, the table's description preview and the create/edit/delete cycle. */
module BooksPage {
  import opened Optional
  import opened Strings
  import opened Seqs
  import opened Search
  import opened Entities
  import opened Crud
  import BookForm

  /** A book matches a lowercased term through its title, its author or its category. */
  predicate Matches(b: Book, term: string) {
    Mentions(b.title, term) || Mentions(b.author, term) || MaybeMentions(b.category, term)
  }

  /** The rows shown for the current search box. */
  function Filtered(books: seq<Book>, searchTerm: string): seq<Book> {
    SearchBy(books, searchTerm, Matches)
  }

  /**
   * A blank search shows every book; otherwise a book is shown exactly when its title,
   * author or category contains the lowercased term, and the shown books keep their order.
   */
  lemma FilteredSpec(books: seq<Book>, searchTerm: string, b: Book)
    ensures IsBlank(searchTerm) ==> Filtered(books, searchTerm) == books
    ensures b in Filtered(books, searchTerm) <==>
      && b in books
      && (|| IsBlank(searchTerm)
          || Mentions(b.title, Lower(searchTerm))
          || Mentions(b.author, Lower(searchTerm))
          || MaybeMentions(b.category, Lower(searchTerm)))
    ensures IsSubsequence(Filtered(books, searchTerm), books)
    ensures multiset(Filtered(books, searchTerm))[b] ==
      if b in Filtered(books, searchTerm) then multiset(books)[b] else 0
  {
    SearchBySpec(books, searchTerm, Matches, b);
  }

  /** The line under the title: the description's first 100 code units, `...` when it is longer. */
  function DescriptionPreview(b: Book): (r: Option<seq<Unit>>)
    ensures r.Some? <==> b.description.Some? && b.description.value != ""
    ensures r.Some? ==> r.value == Preview(b.description.value, 100)
  {
    if b.description.Some? && b.description.value != "" then Some(Preview(b.description.value, 100)) else None
  }

  /**
   * The preview is the description itself up to 100 code units, else its first 100 code units and
   * `...`; for text within the Basic Multilingual Plane that is the first 100 characters.
   */
  lemma DescriptionPreviewShape(b: Book)
    requires DescriptionPreview(b).Some?
    ensures var d := b.description.value; var r := DescriptionPreview(b).value;
      && |r| <= 103
      && (Utf16Length(d) <= 100 ==> r == Utf16(d))
      && (Utf16Length(d) > 100 ==> r == Utf16(d)[..100] + Utf16("..."))
    ensures var d := b.description.value; var r := DescriptionPreview(b).value;
      (forall i :: 0 <= i < |d| ==> d[i] as int < 0x1_0000) ==>
        && (|d| <= 100 ==> r == Utf16(d))
        && (|d| > 100 ==> r == Utf16(d[..100] + "..."))
  {
    var d := b.description.value;
    PreviewBounded(d, 100);
    Utf16LengthIsEncodingLength(d);
    if forall i :: 0 <= i < |d| ==> d[i] as int < 0x1_0000 {
      Utf16LengthBounds(d);
      if |d| > 100 {
        Utf16PrefixOfBmp(d, 100);
        Utf16Append(d[..100], "...");
      }
    }
  }

  function Id(b: Book): int {
    b.id
  }

  /**
   * `handleSubmit`: the write for the submitted form, and what follows it. An edit updates
   * the book being edited; otherwise a book is created.
   */
  function HandleSubmit(p: Page<Book>, data: BookForm.Payload, outcome: Outcome<()>): (r: (Save<BookForm.Payload>, Saved<Book>))
    ensures r.0 == (if p.modal.editing.Some? then Update(p.modal.editing.value.id, data) else Create(data))
    ensures r.1.Settled? <==> outcome.Loaded?
    ensures r.1.Settled? ==> !r.1.page.modal.show && r.1.page.modal.editing.None?
    ensures r.1.Rethrown? ==> r.1.message == TextOr(outcome.message, "Failed to save book")
  {
    (SaveCall(p, data, Id), AfterSave(p, data.title, outcome, "Failed to save book"))
  }

  /** `handleDelete`: a declined confirmation issues no call and leaves the page as it was. */
  function HandleDelete(p: Page<Book>, b: Book, confirmed: bool, outcome: Outcome<()>): (r: (Option<int>, Page<Book>))
    ensures !confirmed ==> r.0.None? && r.1 == p
    ensures confirmed ==> r.0 == Some(b.id)
    ensures confirmed && outcome.Loaded? ==> r.1.notice == Some(Deleted(b.title))
    ensures confirmed && outcome.Failed? ==> r.1.error == Some(TextOr(outcome.message, "Failed to delete book"))
  {
    var call := ConfirmedCall(confirmed, b, Id);
    if call.None? then (call, p) else (call, AfterDelete(p, b.title, outcome, "Failed to delete book"))
  }

  /** The Chapters column: `book.totalChapters || 0`. */
  function ChapterCount(b: Book): (n: nat)
    ensures b.totalChapters.Some? ==> n == b.totalChapters.value
    ensures b.totalChapters.None? ==> n == 0
  {
    b.totalChapters.GetOr(0)
  }
}
