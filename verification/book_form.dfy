/** The book create/edit form: prefill, validation, field changes and the submitted payload. */
module BookForm {
  import opened Optional
  import opened Strings
  import opened Numbers
  import opened FormErrors
  import opened Entities

  /** `formData`: every field is text, except that an edit prefill stores the year as a number. */
  datatype Form = Form(
    title: string,
    author: string,
    description: string,
    coverImageUrl: string,
    category: string,
    language: string,
    publicationYear: Value,
    isbn: string)

  /** The inputs of the form; an error is keyed by the input it belongs to. */
  datatype Field = Title | Author | Description | CoverImageUrl | Category | Language | PublicationYear | Isbn

  /** The empty form shown for a new book. */
  const Initial := Form("", "", "", "", "", "", Str(""), "")

  /** The edit prefill: a missing field becomes `''`, a non-zero year keeps its number. */
  function Prefill(b: Book): Form {
    Form(b.title, b.author, OrEmpty(b.description), OrEmpty(b.coverImageUrl),
         OrEmpty(b.category), OrEmpty(b.language), IntOrEmpty(b.publicationYear), OrEmpty(b.isbn))
  }

  /** The rules a book must meet, stated positively. */
  predicate Acceptable(f: Form) {
    && !IsBlank(f.title) && Utf16Length(f.title) <= 500
    && !IsBlank(f.author) && Utf16Length(f.author) <= 200
    && Utf16Length(f.description) <= 2000
    && Utf16Length(f.coverImageUrl) <= 500
    && Utf16Length(f.category) <= 100
    && Utf16Length(f.language) <= 50
    && IntInRangeOrEmpty(f.publicationYear, 1, 9999)
    && Utf16Length(f.isbn) <= 20
  }

  const Keys: set<Key<Field>> :=
    {On(Title), On(Author), On(Description), On(CoverImageUrl), On(Category), On(Language), On(PublicationYear), On(Isbn)}

  /** The condition of each `if` of `validateForm`. */
  predicate Broken(f: Form, fd: Field) {
    match fd
    case Title => MissingOrTooLong(f.title, 500)
    case Author => MissingOrTooLong(f.author, 200)
    case Description => Utf16Length(f.description) > 2000
    case CoverImageUrl => Utf16Length(f.coverImageUrl) > 500
    case Category => Utf16Length(f.category) > 100
    case Language => Utf16Length(f.language) > 50
    case PublicationYear => !IntInRangeOrEmpty(f.publicationYear, 1, 9999)
    case Isbn => Utf16Length(f.isbn) > 20
  }

  /** The message `validateForm` records for a broken rule. */
  function Message(f: Form, fd: Field): Message<Field> {
    match fd
    case Title => Rule(RequiredProblem(f.title, Title))
    case Author => Rule(RequiredProblem(f.author, Author))
    case PublicationYear => Rule(OutOfRange(fd))
    case _ => Rule(TooLong(fd))
  }

  /** The text the form displays for a problem (each input has one rule besides being required). */
  function Wording(p: Problem<Field>): (s: string)
    ensures s != ""
  {
    match p.field
    case Title => if p.Required? then "Title is required" else "Title cannot exceed 500 characters"
    case Author => if p.Required? then "Author is required" else "Author name cannot exceed 200 characters"
    case Description => "Description cannot exceed 2000 characters"
    case CoverImageUrl => "Cover image URL cannot exceed 500 characters"
    case Category => "Category cannot exceed 100 characters"
    case Language => "Language cannot exceed 50 characters"
    case PublicationYear => "Publication year must be between 1 and 9999"
    case Isbn => "ISBN cannot exceed 20 characters"
  }

  /** `validateForm`: the message of every broken rule, keyed by its input. */
  function Validate(f: Form): Errors<Field> {
    map k | k in Keys && k.On? && Broken(f, k.field) :: Message(f, k.field)
  }

  /** An input is reported exactly when its rule is broken, with that rule's message. */
  lemma ValidateReports(f: Form, fd: Field)
    ensures On(fd) in Validate(f) <==> Broken(f, fd)
    ensures On(fd) in Validate(f) ==> Validate(f)[On(fd)] == Message(f, fd)
  {
  }

  /** The form is acceptable exactly when no rule is broken. */
  lemma AcceptableIffNoneBroken(f: Form)
    ensures Acceptable(f) <==> forall fd :: !Broken(f, fd)
  {
    if forall fd :: !Broken(f, fd) {
      assert !Broken(f, Title) && !Broken(f, Author) && !Broken(f, Description) && !Broken(f, CoverImageUrl);
      assert !Broken(f, Category) && !Broken(f, Language) && !Broken(f, PublicationYear) && !Broken(f, Isbn);
    }
  }

  /** Title and author are required; a blank one is reported as missing, only a non-blank one as too long. */
  lemma RequiredRules(f: Form)
    ensures On(Title) in Validate(f) <==> IsBlank(f.title) || Utf16Length(f.title) > 500
    ensures On(Title) in Validate(f) ==>
      Validate(f)[On(Title)] == Rule(if IsBlank(f.title) then Required(Title) else TooLong(Title))
    ensures On(Author) in Validate(f) <==> IsBlank(f.author) || Utf16Length(f.author) > 200
    ensures On(Author) in Validate(f) ==>
      Validate(f)[On(Author)] == Rule(if IsBlank(f.author) then Required(Author) else TooLong(Author))
  {
    ValidateReports(f, Title);
    ValidateReports(f, Author);
  }

  /** The length cap of each optional text input. */
  function Cap(fd: Field): Option<nat> {
    match fd
    case Description => Some(2000)
    case CoverImageUrl => Some(500)
    case Category => Some(100)
    case Language => Some(50)
    case Isbn => Some(20)
    case _ => None
  }

  lemma CappedBroken(f: Form, fd: Field)
    requires Cap(fd).Some?
    ensures Get(f, fd).Str? && (Broken(f, fd) <==> Utf16Length(Get(f, fd).text) > Cap(fd).value)
  {
  }

  /** An optional text field passes when empty and is otherwise held to its cap. */
  lemma LengthCaps(f: Form)
    ensures forall fd | Cap(fd).Some? :: Get(f, fd).Str? && (On(fd) in Validate(f) <==> Utf16Length(Get(f, fd).text) > Cap(fd).value)
  {
    forall fd | Cap(fd).Some? ensures On(fd) in Validate(f) <==> Utf16Length(Get(f, fd).text) > Cap(fd).value {
      ValidateReports(f, fd);
      CappedBroken(f, fd);
    }
  }

  /** A non-empty year must parse to an integer in [1, 9999]. */
  lemma YearRule(f: Form)
    ensures On(PublicationYear) in Validate(f) <==>
      Truthy(f.publicationYear) && !(IntOf(f.publicationYear).Some? && 1 <= IntOf(f.publicationYear).value <= 9999)
  {
    ValidateReports(f, PublicationYear);
  }

  /** `validateForm` returns true exactly when it records no error, which is when the book is acceptable. */
  lemma ValidIffEmpty(f: Form)
    ensures Validate(f) == map[] <==> Acceptable(f)
  {
    AcceptableIffNoneBroken(f);
    if !Acceptable(f) {
      var fd :| Broken(f, fd);
      ValidateReports(f, fd);
    }
  }

  /** The body sent to `createBook` / `updateBook`; `None` is JSON `null`. */
  datatype Payload = Payload(
    title: string,
    author: string,
    description: string,
    coverImageUrl: string,
    category: string,
    language: string,
    publicationYear: Option<int>,
    isbn: string)

  /**
   * `submitData`: the form's fields, with the year parsed when non-empty and `null` when
   * empty (an unparsable year, `NaN`, is also serialised as `null`).
   */
  function ToPayload(f: Form): (p: Payload)
    ensures p.title == f.title && p.author == f.author && p.description == f.description
    ensures p.coverImageUrl == f.coverImageUrl && p.category == f.category
    ensures p.language == f.language && p.isbn == f.isbn
    ensures p.publicationYear == IntOrNull(f.publicationYear)
  {
    Payload(f.title, f.author, f.description, f.coverImageUrl, f.category, f.language,
            IntOrNull(f.publicationYear), f.isbn)
  }

  /** `handleSubmit`: an invalid form is never handed to `onSubmit`. */
  function HandleSubmit(f: Form): (s: Submission<Field, Payload>)
    ensures s.Blocked? <==> !Acceptable(f)
    ensures s.errors == Validate(f)
    ensures s.Blocked? ==> s.errors == Validate(f) && s.errors != map[]
    ensures s.Sent? ==> s.errors == map[]
    ensures s.Sent? ==> s.payload == ToPayload(f)
  {
    var e := Validate(f);
    ValidIffEmpty(f);
    if e != map[] then Blocked(e) else Sent(e, ToPayload(f))
  }

  /** A submitted payload carries either no year or one in [1, 9999], and a typed year is never dropped. */
  lemma SentYearInRange(f: Form)
    requires HandleSubmit(f).Sent?
    ensures var y := HandleSubmit(f).payload.publicationYear; y.None? || 1 <= y.value <= 9999
    ensures Truthy(f.publicationYear) ==> HandleSubmit(f).payload.publicationYear.Some?
  {
  }

  /**
   * Editing a book and submitting it unchanged sends back what the server holds: missing
   * text becomes `''`, and a year of 0 (falsy) becomes `null`.
   */
  lemma PrefillRoundTrip(b: Book)
    ensures var p := ToPayload(Prefill(b));
      && p.title == b.title && p.author == b.author
      && p.description == OrEmpty(b.description) && p.isbn == OrEmpty(b.isbn)
      && p.publicationYear == (if b.publicationYear == Some(0) then None else b.publicationYear)
  {
    if b.publicationYear.Some? && b.publicationYear.value != 0 {
      IntOfPrefilled(b.publicationYear.value);
    }
  }

  function Get(f: Form, fd: Field): Value {
    match fd
    case Title => Str(f.title)
    case Author => Str(f.author)
    case Description => Str(f.description)
    case CoverImageUrl => Str(f.coverImageUrl)
    case Category => Str(f.category)
    case Language => Str(f.language)
    case PublicationYear => f.publicationYear
    case Isbn => Str(f.isbn)
  }

  function Set(f: Form, fd: Field, v: string): Form {
    match fd
    case Title => f.(title := v)
    case Author => f.(author := v)
    case Description => f.(description := v)
    case CoverImageUrl => f.(coverImageUrl := v)
    case Category => f.(category := v)
    case Language => f.(language := v)
    case PublicationYear => f.(publicationYear := Str(v))
    case Isbn => f.(isbn := v)
  }

  /**
   * `handleChange`: the named field takes the typed text, every other field keeps its value,
   * and only that field's error is cleared.
   */
  function HandleChange(f: Form, e: Errors<Field>, fd: Field, v: string): (r: (Form, Errors<Field>))
    ensures Get(r.0, fd) == Str(v)
    ensures forall g :: g != fd ==> Get(r.0, g) == Get(f, g)
    ensures !Shown(r.1, On(fd))
    ensures forall k :: k != On(fd) ==> (k in r.1 <==> k in e)
    ensures forall k :: k != On(fd) && k in e ==> r.1[k] == e[k]
  {
    (Set(f, fd, v), ClearedOnChange(e, On(fd)))
  }
}
