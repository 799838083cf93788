/**
 * The Dashboard: the book and chapter totals over every book, and the first five books
 * as sent by the backend.
 */
module Dashboard {
  import opened Optional
  import opened Seqs
  import opened Entities
  import opened Crud
  import BooksPage

  /** The two statistics cards. */
  datatype Stats = Stats(totalBooks: nat, totalChapters: nat)

  /** What the dashboard shows once its one fetch has settled. */
  datatype View = Unavailable(message: string) | Ready(stats: Stats, recent: seq<Book>)

  /** How many books the "Recent Books" table lists. */
  const RecentCount: nat := 5

  /** The chapters a book adds: `book.totalChapters || 0`. */
  function Chapters(b: Book): nat {
    BooksPage.ChapterCount(b)
  }

  /** The `forEach` accumulation of the chapter total, one book at a time. */
  method TotalChapters(books: seq<Book>) returns (total: nat)
    ensures total == SumBy(books, Chapters)
  {
    total := 0;
    var i := 0;
    while i < |books|
      invariant 0 <= i <= |books|
      invariant total == SumBy(books[..i], Chapters)
    {
      assert books[..i + 1][..i] == books[..i];
      total := total + Chapters(books[i]);
      i := i + 1;
    }
    assert books[..|books|] == books;
  }

  /**
   * `fetchDashboardData`: the totals over all books and the first five books, or the error.
   * The source comment calls them the last five, but the code takes the first five.
   */
  function Load(fetched: Outcome<seq<Book>>): (v: View)
    ensures fetched.Failed? <==> v.Unavailable?
    ensures v.Unavailable? ==> v.message == TextOr(fetched.message, "Failed to load dashboard data")
    ensures v.Ready? ==> v.stats.totalBooks == |fetched.value| && v.stats.totalChapters == SumBy(fetched.value, Chapters)
    ensures v.Ready? ==> v.recent == Take(fetched.value, RecentCount)
  {
    match fetched
    case Loaded(books) => Ready(Stats(|books|, SumBy(books, Chapters)), Take(books, RecentCount))
    case Failed(m) => Unavailable(TextOr(m, "Failed to load dashboard data"))
  }

  /**
   * The recent table holds the first `min(5, n)` books in the order sent, and each of
   * them contributes its chapters to the chapter card.
   */
  lemma RecentIsPrefix(books: seq<Book>)
    ensures var v := Load(Loaded(books));
      && |v.recent| == (if |books| < RecentCount then |books| else RecentCount)
      && v.recent == books[..|v.recent|]
      && |v.recent| <= v.stats.totalBooks
      && forall i :: 0 <= i < |v.recent| ==> Chapters(v.recent[i]) <= v.stats.totalChapters
  {
    var v := Load(Loaded(books));
    forall i | 0 <= i < |v.recent| ensures Chapters(v.recent[i]) <= v.stats.totalChapters {
      SumAtLeastEach(books, Chapters, i);
    }
  }

  /** One more book adds exactly its own chapters to the chapter card, and one to the book card. */
  lemma AnotherBook(books: seq<Book>, b: Book)
    ensures Load(Loaded(books + [b])).stats.totalChapters == Load(Loaded(books)).stats.totalChapters + Chapters(b)
    ensures Load(Loaded(books + [b])).stats.totalBooks == Load(Loaded(books)).stats.totalBooks + 1
  {
    SumAppend(books, [b], Chapters);
    assert SumBy([b], Chapters) == SumBy([], Chapters) + Chapters(b) by {
      assert [b][..0] == [];
    }
  }

  /** A book without a chapter count adds nothing to the chapter card. */
  lemma UncountedBookAddsNothing(books: seq<Book>, b: Book)
    requires b.totalChapters.None?
    ensures Load(Loaded(books + [b])).stats.totalChapters == Load(Loaded(books)).stats.totalChapters
  {
    AnotherBook(books, b);
  }
}
