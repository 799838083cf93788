/**
 * The textbook create/edit form: the book form's fields plus rating, status, tags, level,
 * year and page count, and the extra fields an edit sends back.
 */
module TextbookForm {
  import opened Optional
  import opened Strings
  import opened Numbers
  import opened FormErrors
  import opened Entities

  datatype Form = Form(
    title: string,
    author: string,
    description: string,
    coverImageUrl: string,
    category: string,
    language: string,
    publicationYear: Value,
    isbn: string,
    rating: Value,
    status: string,
    tags: string,
    level: string,
    year: string,
    pageCount: Value)

  datatype Field =
    | Title | Author | Description | CoverImageUrl | Category | Language | PublicationYear | Isbn
    | Rating | Status | Tags | Level | Year | PageCount

  /** The form shown for a new textbook: everything empty, status `completed`. */
  const Initial := Form("", "", "", "", "", "", Str(""), "", Str(""), "completed", "", "", "", Str(""))

  /** The edit prefill: missing text becomes `''`, a missing status `completed`, non-zero numbers stay numbers. */
  function Prefill(t: Textbook): Form {
    Form(t.title, t.author, OrEmpty(t.description), OrEmpty(t.coverImageUrl), OrEmpty(t.category),
         OrEmpty(t.language), IntOrEmpty(t.publicationYear), OrEmpty(t.isbn), RealOrEmpty(t.rating),
         TextOr(t.status, "completed"), OrEmpty(t.tags), OrEmpty(t.level), OrEmpty(t.year),
         IntOrEmpty(t.pageCount))
  }

  /** The rules a textbook must meet, stated positively. */
  predicate Acceptable(f: Form) {
    RequiredPresent(f) && TextsWithinCaps(f) && NumbersInRange(f)
  }

  /** Title and author are filled in and within their caps. */
  predicate RequiredPresent(f: Form) {
    !IsBlank(f.title) && Utf16Length(f.title) <= 500 && !IsBlank(f.author) && Utf16Length(f.author) <= 200
  }

  predicate TextsWithinCaps(f: Form) {
    && Utf16Length(f.description) <= 2000
    && Utf16Length(f.coverImageUrl) <= 500
    && Utf16Length(f.category) <= 100
    && Utf16Length(f.language) <= 50
    && Utf16Length(f.isbn) <= 20
    && Utf16Length(f.status) <= 50
    && Utf16Length(f.tags) <= 1000
    && Utf16Length(f.level) <= 50
    && Utf16Length(f.year) <= 50
  }

  predicate NumbersInRange(f: Form) {
    && IntInRangeOrEmpty(f.publicationYear, 1, 9999)
    && RealInRangeOrEmpty(f.rating, 0.0, 5.0)
    && IntInRangeOrEmpty(f.pageCount, 1, 10000)
  }

  const Keys: set<Key<Field>> :=
    {On(Title), On(Author), On(Description), On(CoverImageUrl), On(Category), On(Language), On(PublicationYear),
     On(Isbn), On(Rating), On(Status), On(Tags), On(Level), On(Year), On(PageCount)}

  /** The condition of each `if` of `validateForm`. */
  predicate Broken(f: Form, fd: Field) {
    match fd
    case Title => MissingOrTooLong(f.title, 500)
    case Author => MissingOrTooLong(f.author, 200)
    case Description => Utf16Length(f.description) > 2000
    case CoverImageUrl => Utf16Length(f.coverImageUrl) > 500
    case Category => Utf16Length(f.category) > 100
    case Language => Utf16Length(f.language) > 50
    case PublicationYear => !IntInRangeOrEmpty(f.publicationYear, 1, 9999)
    case Isbn => Utf16Length(f.isbn) > 20
    case Rating => !RealInRangeOrEmpty(f.rating, 0.0, 5.0)
    case Status => Utf16Length(f.status) > 50
    case Tags => Utf16Length(f.tags) > 1000
    case Level => Utf16Length(f.level) > 50
    case Year => Utf16Length(f.year) > 50
    case PageCount => !IntInRangeOrEmpty(f.pageCount, 1, 10000)
  }

  /** The message `validateForm` records for a broken rule. */
  function Message(f: Form, fd: Field): Message<Field> {
    match fd
    case Title => Rule(RequiredProblem(f.title, Title))
    case Author => Rule(RequiredProblem(f.author, Author))
    case PublicationYear | Rating | PageCount => Rule(OutOfRange(fd))
    case _ => Rule(TooLong(fd))
  }

  /** The text the form displays for a problem (each input has one rule besides being required). */
  function Wording(p: Problem<Field>): (s: string)
    ensures s != ""
  {
    match p.field
    case Title => if p.Required? then "Title is required" else "Title cannot exceed 500 characters"
    case Author => if p.Required? then "Author is required" else "Author name cannot exceed 200 characters"
    case Description => "Description cannot exceed 2000 characters"
    case CoverImageUrl => "Cover image URL cannot exceed 500 characters"
    case Category => "Category cannot exceed 100 characters"
    case Language => "Language cannot exceed 50 characters"
    case PublicationYear => "Publication year must be between 1 and 9999"
    case Isbn => "ISBN cannot exceed 20 characters"
    case Rating => "Rating must be between 0 and 5"
    case Status => "Status cannot exceed 50 characters"
    case Tags => "Tags cannot exceed 1000 characters"
    case Level => "Level cannot exceed 50 characters"
    case Year => "Year cannot exceed 50 characters"
    case PageCount => "Page count must be between 1 and 10000"
  }

  /** `validateForm`: the message of every broken rule, keyed by its input. */
  function Validate(f: Form): Errors<Field> {
    map k | k in Keys && k.On? && Broken(f, k.field) :: Message(f, k.field)
  }

  /** An input is reported exactly when its rule is broken, with that rule's message. */
  lemma ValidateReports(f: Form, fd: Field)
    ensures On(fd) in Validate(f) <==> Broken(f, fd)
    ensures On(fd) in Validate(f) ==> Validate(f)[On(fd)] == Message(f, fd)
  {
  }

  /** The form is acceptable exactly when no rule is broken. */
  lemma AcceptableIffNoneBroken(f: Form)
    ensures Acceptable(f) <==> forall fd :: !Broken(f, fd)
  {
    if forall fd :: !Broken(f, fd) {
      assert !Broken(f, Title) && !Broken(f, Author) && !Broken(f, Description) && !Broken(f, CoverImageUrl);
      assert !Broken(f, Category) && !Broken(f, Language) && !Broken(f, PublicationYear) && !Broken(f, Isbn);
      assert !Broken(f, Rating) && !Broken(f, Status) && !Broken(f, Tags) && !Broken(f, Level);
      assert !Broken(f, Year) && !Broken(f, PageCount);
      AcceptableFromFields(f);
    }
  }

  lemma AcceptableFromFields(f: Form)
    requires !Broken(f, Title) && !Broken(f, Author) && !Broken(f, Description) && !Broken(f, CoverImageUrl)
    requires !Broken(f, Category) && !Broken(f, Language) && !Broken(f, PublicationYear) && !Broken(f, Isbn)
    requires !Broken(f, Rating) && !Broken(f, Status) && !Broken(f, Tags) && !Broken(f, Level)
    requires !Broken(f, Year) && !Broken(f, PageCount)
    ensures Acceptable(f)
  {
    assert RequiredPresent(f) by {
      assert !Broken(f, Title) && !Broken(f, Author);
    }
    assert NumbersInRange(f) by {
      assert !Broken(f, PublicationYear) && !Broken(f, Rating) && !Broken(f, PageCount);
    }
    TextsFromFields(f);
  }

  lemma TextsFromFields(f: Form)
    requires !Broken(f, Description) && !Broken(f, CoverImageUrl) && !Broken(f, Category) && !Broken(f, Language)
    requires !Broken(f, Isbn) && !Broken(f, Status) && !Broken(f, Tags) && !Broken(f, Level) && !Broken(f, Year)
    ensures TextsWithinCaps(f)
  {
  }

  /** Title and author are required; a blank one is reported as missing, only a non-blank one as too long. */
  lemma RequiredRules(f: Form)
    ensures On(Title) in Validate(f) <==> IsBlank(f.title) || Utf16Length(f.title) > 500
    ensures On(Title) in Validate(f) ==>
      Validate(f)[On(Title)] == Rule(if IsBlank(f.title) then Required(Title) else TooLong(Title))
    ensures On(Author) in Validate(f) <==> IsBlank(f.author) || Utf16Length(f.author) > 200
    ensures On(Author) in Validate(f) ==>
      Validate(f)[On(Author)] == Rule(if IsBlank(f.author) then Required(Author) else TooLong(Author))
  {
    ValidateReports(f, Title);
    ValidateReports(f, Author);
  }

  /** The length cap of each optional text input. */
  function Cap(fd: Field): Option<nat> {
    match fd
    case Description => Some(2000)
    case CoverImageUrl => Some(500)
    case Category => Some(100)
    case Language => Some(50)
    case Isbn => Some(20)
    case Status => Some(50)
    case Tags => Some(1000)
    case Level => Some(50)
    case Year => Some(50)
    case _ => None
  }

  lemma CappedRule(f: Form, fd: Field)
    requires Cap(fd).Some?
    ensures Get(f, fd).Str? && (On(fd) in Validate(f) <==> Utf16Length(Get(f, fd).text) > Cap(fd).value)
  {
  }

  /** An optional text field passes when empty and is otherwise held to its cap. */
  lemma LengthCaps(f: Form)
    ensures forall fd | Cap(fd).Some? :: Get(f, fd).Str? && (On(fd) in Validate(f) <==> Utf16Length(Get(f, fd).text) > Cap(fd).value)
  {
    forall fd | Cap(fd).Some? ensures Get(f, fd).Str? && (On(fd) in Validate(f) <==> Utf16Length(Get(f, fd).text) > Cap(fd).value) {
      CappedRule(f, fd);
    }
  }

  /** Non-empty numbers must parse into range: year in [1, 9999], rating in [0, 5], page count in [1, 10000]. */
  lemma NumberRules(f: Form)
    ensures On(PublicationYear) in Validate(f) <==>
      Truthy(f.publicationYear) && !(IntOf(f.publicationYear).Some? && 1 <= IntOf(f.publicationYear).value <= 9999)
    ensures On(Rating) in Validate(f) <==>
      Truthy(f.rating) && !(FloatOf(f.rating).Some? && 0.0 <= FloatOf(f.rating).value <= 5.0)
    ensures On(PageCount) in Validate(f) <==>
      Truthy(f.pageCount) && !(IntOf(f.pageCount).Some? && 1 <= IntOf(f.pageCount).value <= 10000)
  {
    NumberReported(f, PublicationYear);
    NumberReported(f, Rating);
    NumberReported(f, PageCount);
  }

  /** One numeric input has an entry exactly when its range test fails. */
  lemma NumberReported(f: Form, fd: Field)
    requires fd in {PublicationYear, Rating, PageCount}
    ensures fd == PublicationYear ==> (On(fd) in Validate(f) <==> !IntInRangeOrEmpty(f.publicationYear, 1, 9999))
    ensures fd == Rating ==> (On(fd) in Validate(f) <==> !RealInRangeOrEmpty(f.rating, 0.0, 5.0))
    ensures fd == PageCount ==> (On(fd) in Validate(f) <==> !IntInRangeOrEmpty(f.pageCount, 1, 10000))
  {
    ValidateReports(f, fd);
  }

  /** `validateForm` returns true exactly when it records no error, which is when the textbook is acceptable. */
  lemma ValidIffEmpty(f: Form)
    ensures Validate(f) == map[] <==> Acceptable(f)
  {
    AcceptableIffNoneBroken(f);
    if !Acceptable(f) {
      var fd :| Broken(f, fd);
      ValidateReports(f, fd);
    }
  }

  /** What an edit adds to the payload: the chapter count and the active flag of the original. */
  datatype EditExtras = EditExtras(totalChapters: nat, isActive: bool)

  /** The body sent to `createTextbook` / `updateTextbook`; `None` is JSON `null` or an absent key. */
  datatype Payload = Payload(
    title: string,
    author: string,
    description: string,
    coverImageUrl: string,
    category: string,
    language: string,
    publicationYear: Option<int>,
    isbn: string,
    rating: Option<real>,
    status: string,
    tags: string,
    level: string,
    year: string,
    pageCount: Option<int>,
    extras: Option<EditExtras>)

  /** `textbook.totalChapters || 0` and `textbook.isActive !== undefined ? textbook.isActive : true`. */
  function ExtrasOf(t: Textbook): (x: EditExtras)
    ensures x.totalChapters == t.totalChapters.GetOr(0)
    ensures x.isActive <==> t.isActive != Some(false)
  {
    EditExtras(t.totalChapters.GetOr(0), t.isActive.GetOr(true))
  }

  /**
   * `submitData`: the text fields as typed; year, rating and page count parsed when non-empty
   * and `null` when empty; on edit (`original` present) the extra fields of the original.
   */
  function ToPayload(f: Form, original: Option<Textbook>): (p: Payload)
    ensures p.title == f.title && p.author == f.author && p.description == f.description
    ensures p.coverImageUrl == f.coverImageUrl && p.category == f.category && p.language == f.language
    ensures p.isbn == f.isbn && p.status == f.status && p.tags == f.tags && p.level == f.level && p.year == f.year
    ensures p.publicationYear == IntOrNull(f.publicationYear) && p.rating == RealOrNull(f.rating)
    ensures p.pageCount == IntOrNull(f.pageCount)
    ensures p.extras.Some? <==> original.Some?
    ensures original.Some? ==> p.extras.value == ExtrasOf(original.value)
  {
    Payload(f.title, f.author, f.description, f.coverImageUrl, f.category, f.language,
            IntOrNull(f.publicationYear),
            f.isbn,
            RealOrNull(f.rating),
            f.status, f.tags, f.level, f.year,
            IntOrNull(f.pageCount),
            match original case Some(t) => Some(ExtrasOf(t)) case None => None)
  }

  /** `handleSubmit`: an invalid form is never handed to `onSubmit`. */
  function HandleSubmit(f: Form, original: Option<Textbook>): (s: Submission<Field, Payload>)
    ensures s.Blocked? <==> !Acceptable(f)
    ensures s.errors == Validate(f)
    ensures s.Blocked? ==> s.errors == Validate(f) && s.errors != map[]
    ensures s.Sent? ==> s.errors == map[]
    ensures s.Sent? ==> s.payload == ToPayload(f, original)
  {
    var e := Validate(f);
    ValidIffEmpty(f);
    if e != map[] then Blocked(e) else Sent(e, ToPayload(f, original))
  }

  /** Every number a submitted payload carries is in its range. */
  lemma SentNumbersInRange(f: Form, original: Option<Textbook>)
    requires HandleSubmit(f, original).Sent?
    ensures var p := HandleSubmit(f, original).payload;
      && (p.publicationYear.None? || 1 <= p.publicationYear.value <= 9999)
      && (p.rating.None? || 0.0 <= p.rating.value <= 5.0)
      && (p.pageCount.None? || 1 <= p.pageCount.value <= 10000)
  {
    assert Acceptable(f);
  }

  function Get(f: Form, fd: Field): Value {
    match fd
    case Title => Str(f.title)
    case Author => Str(f.author)
    case Description => Str(f.description)
    case CoverImageUrl => Str(f.coverImageUrl)
    case Category => Str(f.category)
    case Language => Str(f.language)
    case PublicationYear => f.publicationYear
    case Isbn => Str(f.isbn)
    case Rating => f.rating
    case Status => Str(f.status)
    case Tags => Str(f.tags)
    case Level => Str(f.level)
    case Year => Str(f.year)
    case PageCount => f.pageCount
  }

  function Set(f: Form, fd: Field, v: string): Form {
    match fd
    case Title => f.(title := v)
    case Author => f.(author := v)
    case Description => f.(description := v)
    case CoverImageUrl => f.(coverImageUrl := v)
    case Category => f.(category := v)
    case Language => f.(language := v)
    case PublicationYear => f.(publicationYear := Str(v))
    case Isbn => f.(isbn := v)
    case Rating => f.(rating := Str(v))
    case Status => f.(status := v)
    case Tags => f.(tags := v)
    case Level => f.(level := v)
    case Year => f.(year := v)
    case PageCount => f.(pageCount := Str(v))
  }

  /**
   * `handleChange`: the named field takes the typed text, every other field keeps its value,
   * and only that field's error is cleared.
   */
  function HandleChange(f: Form, e: Errors<Field>, fd: Field, v: string): (r: (Form, Errors<Field>))
    ensures Get(r.0, fd) == Str(v)
    ensures forall g :: g != fd ==> Get(r.0, g) == Get(f, g)
    ensures !Shown(r.1, On(fd))
    ensures forall k :: k != On(fd) ==> (k in r.1 <==> k in e)
    ensures forall k :: k != On(fd) && k in e ==> r.1[k] == e[k]
  {
    (Set(f, fd, v), ClearedOnChange(e, On(fd)))
  }
}
