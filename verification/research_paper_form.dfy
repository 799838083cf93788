/**
 * The research paper create/edit form: prefill (with the current year as the default
 * year), validation, field changes and the submitted payload.
 */
module ResearchPaperForm {
  import opened Optional
  import opened Strings
  import opened Numbers
  import opened FormErrors
  import opened Entities

  /** `abstractText` is the input named `abstract`. */
  datatype Form = Form(
    title: string,
    authors: string,
    institution: string,
    year: Value,
    category: string,
    abstractText: string,
    contentHtml: string,
    keywords: string,
    pages: Value,
    doi: string,
    journalName: string,
    volume: string,
    issueNumber: string,
    publicationDate: string,
    pdfUrl: string,
    coverImageUrl: string,
    rating: Value,
    status: string,
    isFeatured: bool)

  /** The inputs that take text; the featured checkbox is changed by `HandleCheck`. */
  datatype Field =
    | Title | Authors | Institution | Year | Category | Abstract | ContentHtml | Keywords | Pages
    | Doi | JournalName | Volume | IssueNumber | PublicationDate | PdfUrl | CoverImageUrl | Rating | Status

  /** The form shown for a new paper; `currentYear` is `new Date().getFullYear()`. */
  function Initial(currentYear: int): Form {
    Form("", "", "", Num(currentYear as real), "research-paper", "", "", "", Num(0.0),
         "", "", "", "", "", "", "", Num(0.0), "published", false)
  }

  /** The edit prefill, with the defaults of a new paper for missing values. */
  function Prefill(p: ResearchPaper, currentYear: int): Form {
    Form(p.title, TextListField(p.authors), p.institution,
         Num((if p.year.Some? && p.year.value != 0 then p.year.value else currentYear) as real),
         TextOr(p.category, "research-paper"), OrEmpty(p.abstractText), OrEmpty(p.contentHtml),
         TextListField(p.keywords), Num(OrZero(p.pages) as real), OrEmpty(p.doi), OrEmpty(p.journalName),
         OrEmpty(p.volume), OrEmpty(p.issueNumber), DatePart(OrEmpty(p.publicationDate)),
         OrEmpty(p.pdfUrl), OrEmpty(p.coverImageUrl), Num(OrZeroReal(p.rating)),
         TextOr(p.status, "published"), p.isFeatured.GetOr(false))
  }

  /** The rules a paper must meet, stated positively. */
  predicate Acceptable(f: Form) {
    RequiredPresent(f) && NumbersInRange(f)
  }

  /** Title, authors and institution are filled in and within their caps; category and abstract are present. */
  predicate RequiredPresent(f: Form) {
    && !IsBlank(f.title) && Utf16Length(f.title) <= 500
    && !IsBlank(f.authors) && Utf16Length(f.authors) <= 1000
    && !IsBlank(f.institution) && Utf16Length(f.institution) <= 300
    && f.category != ""
    && !IsBlank(f.abstractText)
  }

  /** The year is given and in [1900, 2100]; pages and rating are not outside their ranges. */
  predicate NumbersInRange(f: Form) {
    && RequiredIntInRange(f.year, 1900, 2100)
    && NotOutside(f.pages, 0.0, 10000.0)
    && NotOutside(f.rating, 0.0, 5.0)
  }

  const Keys: set<Key<Field>> :=
    {On(Title), On(Authors), On(Institution), On(Year), On(Category), On(Abstract), On(Pages), On(Rating)}

  /** The condition of each `if` of `validateForm`; the other inputs are never checked. */
  predicate Broken(f: Form, fd: Field) {
    match fd
    case Title => MissingOrTooLong(f.title, 500)
    case Authors => MissingOrTooLong(f.authors, 1000)
    case Institution => MissingOrTooLong(f.institution, 300)
    case Year => !RequiredIntInRange(f.year, 1900, 2100)
    case Category => f.category == ""
    case Abstract => IsBlank(f.abstractText)
    case Pages => !NotOutside(f.pages, 0.0, 10000.0)
    case Rating => !NotOutside(f.rating, 0.0, 5.0)
    case _ => false
  }

  /** The message `validateForm` records for a broken rule. */
  function Message(f: Form, fd: Field): Message<Field> {
    match fd
    case Title => Rule(RequiredProblem(f.title, Title))
    case Authors => Rule(RequiredProblem(f.authors, Authors))
    case Institution => Rule(RequiredProblem(f.institution, Institution))
    case Year => Rule(if Truthy(f.year) then OutOfRange(Year) else Required(Year))
    case Category | Abstract => Rule(Required(fd))
    case _ => Rule(OutOfRange(fd))
  }

  /** The text the form displays for a problem of a checked input. */
  function Wording(p: Problem<Field>): (s: string)
    requires On(p.field) in Keys
    ensures s != ""
  {
    match p.field
    case Title => if p.Required? then "Title is required" else "Title cannot exceed 500 characters"
    case Authors => if p.Required? then "Authors are required" else "Authors cannot exceed 1000 characters"
    case Institution => if p.Required? then "Institution is required" else "Institution cannot exceed 300 characters"
    case Year => if p.Required? then "Year is required" else "Year must be between 1900 and 2100"
    case Category => "Category is required"
    case Abstract => "Abstract is required"
    case Pages => "Pages must be between 0 and 10000"
    case Rating => "Rating must be between 0 and 5"
    case _ => assert false; ""
  }

  /** `validateForm`: the message of every broken rule, keyed by its input. */
  function Validate(f: Form): Errors<Field> {
    map k | k in Keys && k.On? && Broken(f, k.field) :: Message(f, k.field)
  }

  /** An input is reported exactly when its rule is broken, with that rule's message. */
  lemma ValidateReports(f: Form, fd: Field)
    ensures On(fd) in Validate(f) <==> Broken(f, fd)
    ensures On(fd) in Validate(f) ==> Validate(f)[On(fd)] == Message(f, fd)
  {
  }

  /** The form is acceptable exactly when no rule is broken. */
  lemma AcceptableIffNoneBroken(f: Form)
    ensures Acceptable(f) <==> forall fd :: !Broken(f, fd)
  {
    if forall fd :: !Broken(f, fd) {
      assert !Broken(f, Title) && !Broken(f, Authors) && !Broken(f, Institution) && !Broken(f, Category);
      assert !Broken(f, Abstract) && !Broken(f, Year) && !Broken(f, Pages) && !Broken(f, Rating);
      RequiredFromFields(f);
      NumbersFromFields(f);
    }
  }

  lemma RequiredFromFields(f: Form)
    requires !Broken(f, Title) && !Broken(f, Authors) && !Broken(f, Institution) && !Broken(f, Category)
    requires !Broken(f, Abstract)
    ensures RequiredPresent(f)
  {
  }

  lemma NumbersFromFields(f: Form)
    requires !Broken(f, Year) && !Broken(f, Pages) && !Broken(f, Rating)
    ensures NumbersInRange(f)
  {
    YearFromField(f);
    PagesFromField(f);
    RatingFromField(f);
  }

  lemma YearFromField(f: Form)
    requires !Broken(f, Year)
    ensures RequiredIntInRange(f.year, 1900, 2100)
  {
  }

  lemma PagesFromField(f: Form)
    requires !Broken(f, Pages)
    ensures NotOutside(f.pages, 0.0, 10000.0)
  {
  }

  lemma RatingFromField(f: Form)
    requires !Broken(f, Rating)
    ensures NotOutside(f.rating, 0.0, 5.0)
  {
  }

  /** Title, authors and institution are required; only a non-blank one is reported as too long. */
  lemma RequiredTextRules(f: Form)
    ensures On(Title) in Validate(f) <==> IsBlank(f.title) || Utf16Length(f.title) > 500
    ensures On(Authors) in Validate(f) <==> IsBlank(f.authors) || Utf16Length(f.authors) > 1000
    ensures On(Institution) in Validate(f) <==> IsBlank(f.institution) || Utf16Length(f.institution) > 300
  {
    ValidateReports(f, Title);
    ValidateReports(f, Authors);
    ValidateReports(f, Institution);
  }

  /** A blank required text is reported as missing rather than too long. */
  lemma BlankReportedAsMissing(f: Form, fd: Field)
    requires fd == Title || fd == Authors || fd == Institution
    requires IsBlank(Get(f, fd).text)
    ensures On(fd) in Validate(f) && Validate(f)[On(fd)] == Rule(Required(fd))
  {
    ValidateReports(f, fd);
  }

  /** The category must be chosen (it is not trimmed) and the abstract must not be blank. */
  lemma CategoryAndAbstractRules(f: Form)
    ensures On(Category) in Validate(f) <==> f.category == ""
    ensures On(Abstract) in Validate(f) <==> IsBlank(f.abstractText)
  {
    ValidateReports(f, Category);
    ValidateReports(f, Abstract);
  }

  /** An empty year is reported as missing; a present one must parse into [1900, 2100]. */
  lemma YearRule(f: Form)
    ensures On(Year) in Validate(f) <==> !Truthy(f.year) || !(IntOf(f.year).Some? && 1900 <= IntOf(f.year).value <= 2100)
    ensures On(Year) in Validate(f) ==> Validate(f)[On(Year)] == Rule(if Truthy(f.year) then OutOfRange(Year) else Required(Year))
  {
    ValidateReports(f, Year);
  }

  /** Pages and rating are reported only when `Number` reads them below zero or above the maximum. */
  lemma CountRules(f: Form)
    ensures On(Pages) in Validate(f) <==> Below(f.pages, 0.0) || Above(f.pages, 10000.0)
    ensures On(Rating) in Validate(f) <==> Below(f.rating, 0.0) || Above(f.rating, 5.0)
  {
    CountReported(f, Pages);
    CountReported(f, Rating);
  }

  /** One count input has an entry exactly when it compares outside its bounds. */
  lemma CountReported(f: Form, fd: Field)
    requires fd == Pages || fd == Rating
    ensures fd == Pages ==> (On(fd) in Validate(f) <==> Below(f.pages, 0.0) || Above(f.pages, 10000.0))
    ensures fd == Rating ==> (On(fd) in Validate(f) <==> Below(f.rating, 0.0) || Above(f.rating, 5.0))
  {
    ValidateReports(f, fd);
  }

  /** `validateForm` returns true exactly when it records no error, which is when the paper is acceptable. */
  lemma ValidIffEmpty(f: Form)
    ensures Validate(f) == map[] <==> Acceptable(f)
  {
    AcceptableIffNoneBroken(f);
    if !Acceptable(f) {
      var fd :| Broken(f, fd);
      ValidateReports(f, fd);
    }
  }

  /** The body sent to `createResearchPaper` / `updateResearchPaper`; `None` is JSON `null`. */
  datatype Payload = Payload(
    title: string,
    authors: string,
    institution: string,
    year: Option<int>,
    category: string,
    abstractText: string,
    contentHtml: Option<string>,
    keywords: Option<string>,
    pages: int,
    doi: Option<string>,
    journalName: Option<string>,
    volume: Option<string>,
    issueNumber: Option<string>,
    publicationDate: Option<string>,
    pdfUrl: Option<string>,
    coverImageUrl: Option<string>,
    rating: real,
    status: string,
    isFeatured: bool)

  /**
   * `submitData`: the authors kept as the typed comma-separated text, optional text `null`
   * when empty, the year parsed, pages and rating parsed with `NaN` and empty becoming 0.
   */
  function ToPayload(f: Form): (p: Payload)
    ensures p.title == f.title && p.authors == f.authors && p.institution == f.institution
    ensures p.category == f.category && p.abstractText == f.abstractText && p.status == f.status
    ensures p.isFeatured == f.isFeatured
    ensures p.keywords == NullIfEmpty(f.keywords) && p.contentHtml == NullIfEmpty(f.contentHtml)
    ensures p.doi == NullIfEmpty(f.doi) && p.journalName == NullIfEmpty(f.journalName)
    ensures p.volume == NullIfEmpty(f.volume) && p.issueNumber == NullIfEmpty(f.issueNumber)
    ensures p.publicationDate == NullIfEmpty(f.publicationDate)
    ensures p.pdfUrl == NullIfEmpty(f.pdfUrl) && p.coverImageUrl == NullIfEmpty(f.coverImageUrl)
    ensures p.year == IntOf(f.year) && p.pages == OrZero(IntOf(f.pages)) && p.rating == OrZeroReal(FloatOf(f.rating))
  {
    Payload(f.title, f.authors, f.institution, IntOf(f.year), f.category, f.abstractText,
            NullIfEmpty(f.contentHtml), NullIfEmpty(f.keywords), OrZero(IntOf(f.pages)), NullIfEmpty(f.doi),
            NullIfEmpty(f.journalName), NullIfEmpty(f.volume), NullIfEmpty(f.issueNumber),
            NullIfEmpty(f.publicationDate), NullIfEmpty(f.pdfUrl), NullIfEmpty(f.coverImageUrl),
            OrZeroReal(FloatOf(f.rating)), f.status, f.isFeatured)
  }

  /** `handleSubmit`: an invalid form is never handed to `onSubmit`. */
  function HandleSubmit(f: Form): (s: Submission<Field, Payload>)
    ensures s.Blocked? <==> !Acceptable(f)
    ensures s.errors == Validate(f)
    ensures s.Blocked? ==> s.errors == Validate(f) && s.errors != map[]
    ensures s.Sent? ==> s.errors == map[]
    ensures s.Sent? ==> s.payload == ToPayload(f)
  {
    var e := Validate(f);
    ValidIffEmpty(f);
    if e != map[] then Blocked(e) else Sent(e, ToPayload(f))
  }

  /** A submitted paper always carries a year in [1900, 2100] and non-blank authors. */
  lemma SentYearInRange(f: Form)
    requires HandleSubmit(f).Sent?
    ensures HandleSubmit(f).payload.year.Some?
    ensures 1900 <= HandleSubmit(f).payload.year.value <= 2100
    ensures !IsBlank(HandleSubmit(f).payload.authors)
  {
  }

  /**
   * Pages and rating that `Number` reads as numbers are sent within their ranges: validation
   * compares with `Number`, the payload uses `parseInt` / `parseFloat`, and on such values they agree.
   */
  lemma SentCountsInRange(f: Form)
    requires HandleSubmit(f).Sent?
    requires NumberOf(f.pages).Some? && NumberOf(f.rating).Some?
    ensures 0 <= HandleSubmit(f).payload.pages <= 10000
    ensures 0.0 <= HandleSubmit(f).payload.rating <= 5.0
  {
    NotOutsideIntSent(f.pages, 0, 10000);
    NotOutsideRealSent(f.rating, 0.0, 5.0);
  }

  /** A new paper starts with the current year, which passes validation within [1900, 2100]. */
  lemma InitialYear(currentYear: int)
    ensures Initial(currentYear).year == Num(currentYear as real)
    ensures !Broken(Initial(currentYear), Year) <==> 1900 <= currentYear <= 2100
  {
    IntOfPrefilled(currentYear);
  }

  /**
   * Editing a paper and submitting it unchanged sends back its title, its authors as one
   * text (a list joined with `, `), its year (or the current year when it had none) and its
   * publication date cut to the date part.
   */
  lemma PrefillRoundTrip(p: ResearchPaper, currentYear: int)
    ensures var q := ToPayload(Prefill(p, currentYear));
      && q.title == p.title && q.authors == TextListField(p.authors) && q.institution == p.institution
      && q.year == Some(if p.year.Some? && p.year.value != 0 then p.year.value else currentYear)
      && q.publicationDate == NullIfEmpty(DatePart(OrEmpty(p.publicationDate)))
      && q.isFeatured == (p.isFeatured == Some(true))
  {
    IntOfPrefilled(if p.year.Some? && p.year.value != 0 then p.year.value else currentYear);
  }

  function Get(f: Form, fd: Field): Value {
    match fd
    case Title => Str(f.title)
    case Authors => Str(f.authors)
    case Institution => Str(f.institution)
    case Year => f.year
    case Category => Str(f.category)
    case Abstract => Str(f.abstractText)
    case ContentHtml => Str(f.contentHtml)
    case Keywords => Str(f.keywords)
    case Pages => f.pages
    case Doi => Str(f.doi)
    case JournalName => Str(f.journalName)
    case Volume => Str(f.volume)
    case IssueNumber => Str(f.issueNumber)
    case PublicationDate => Str(f.publicationDate)
    case PdfUrl => Str(f.pdfUrl)
    case CoverImageUrl => Str(f.coverImageUrl)
    case Rating => f.rating
    case Status => Str(f.status)
  }

  function Set(f: Form, fd: Field, v: string): Form {
    match fd
    case Title => f.(title := v)
    case Authors => f.(authors := v)
    case Institution => f.(institution := v)
    case Year => f.(year := Str(v))
    case Category => f.(category := v)
    case Abstract => f.(abstractText := v)
    case ContentHtml => f.(contentHtml := v)
    case Keywords => f.(keywords := v)
    case Pages => f.(pages := Str(v))
    case Doi => f.(doi := v)
    case JournalName => f.(journalName := v)
    case Volume => f.(volume := v)
    case IssueNumber => f.(issueNumber := v)
    case PublicationDate => f.(publicationDate := v)
    case PdfUrl => f.(pdfUrl := v)
    case CoverImageUrl => f.(coverImageUrl := v)
    case Rating => f.(rating := Str(v))
    case Status => f.(status := v)
  }

  /**
   * `handleChange` for a text input: the named field takes the typed text, every other
   * input keeps its value, and that field's error is blanked to `''`.
   */
  function HandleChange(f: Form, e: Errors<Field>, fd: Field, v: string): (r: (Form, Errors<Field>))
    ensures Get(r.0, fd) == Str(v) && r.0.isFeatured == f.isFeatured
    ensures forall g :: g != fd ==> Get(r.0, g) == Get(f, g)
    ensures !Shown(r.1, On(fd))
    ensures forall k :: k != On(fd) ==> (k in r.1 <==> k in e)
    ensures forall k :: k != On(fd) && k in e ==> r.1[k] == e[k]
  {
    SetChangesOnlyField(f, fd, v);
    (Set(f, fd, v), BlankedOnChange(e, On(fd)))
  }

  /** Setting one input leaves every other input, and the featured flag, as it was. */
  lemma SetChangesOnlyField(f: Form, fd: Field, v: string)
    ensures Get(Set(f, fd, v), fd) == Str(v) && Set(f, fd, v).isFeatured == f.isFeatured
    ensures forall g :: g != fd ==> Get(Set(f, fd, v), g) == Get(f, g)
  {
    forall g | g != fd
      ensures Get(Set(f, fd, v), g) == Get(f, g)
    {
      SetKeeps(f, fd, g, v);
    }
  }

  lemma SetKeeps(f: Form, fd: Field, g: Field, v: string)
    requires g != fd
    ensures Get(Set(f, fd, v), g) == Get(f, g)
  {
    match fd {
      case Year => assert Set(f, fd, v) == f.(year := Str(v));
      case Pages => assert Set(f, fd, v) == f.(pages := Str(v));
      case Rating => assert Set(f, fd, v) == f.(rating := Str(v));
      case _ =>
    }
  }

  /**
   * `handleChange` for the featured checkbox: only the flag changes. No rule reports the
   * flag, so there is never an error of its own to blank.
   */
  function HandleCheck(f: Form, e: Errors<Field>, checked: bool): (r: (Form, Errors<Field>))
    ensures r.0.isFeatured == checked
    ensures forall g :: Get(r.0, g) == Get(f, g)
    ensures r.1 == e
  {
    (f.(isFeatured := checked), e)
  }
}
