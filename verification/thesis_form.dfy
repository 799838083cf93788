/**
 * The thesis create/edit form: prefill (with the current year as the default year),
 * validation, field changes and the submitted payload.
 */
module ThesisForm {
  import opened Optional
  import opened Strings
  import opened Numbers
  import opened FormErrors
  import opened Entities

  /** `abstractText` is the input named `abstract`. */
  datatype Form = Form(
    title: string,
    author: string,
    guideNames: string,
    institution: string,
    department: string,
    year: Value,
    category: string,
    thesisType: string,
    abstractText: string,
    contentHtml: string,
    keywords: string,
    pages: Value,
    submissionDate: string,
    approvalDate: string,
    defenseDate: string,
    grade: string,
    pdfUrl: string,
    coverImageUrl: string,
    universityRegistrationNumber: string,
    rating: Value,
    status: string,
    isFeatured: bool)

  /** The inputs that take text; the featured checkbox is changed by `HandleCheck`. */
  datatype Field =
    | Title | Author | GuideNames | Institution | Department | Year | Category | ThesisType
    | Abstract | ContentHtml | Keywords | Pages | SubmissionDate | ApprovalDate | DefenseDate
    | Grade | PdfUrl | CoverImageUrl | UniversityRegistrationNumber | Rating | Status

  /** The form shown for a new thesis; `currentYear` is `new Date().getFullYear()`. */
  function Initial(currentYear: int): Form {
    Form("", "", "", "", "", Num(currentYear as real), "MS Thesis", "Thesis", "", "", "", Num(0.0),
         "", "", "", "", "", "", "", Num(0.0), "published", false)
  }

  /** `d ? d.split('T')[0] : ''`: a stored date-time shown as its date. */
  function DateField(d: Option<string>): (r: string)
    ensures d.None? ==> r == ""
    ensures d.Some? ==> r == DatePart(d.value)
  {
    DatePart(OrEmpty(d))
  }

  /** The edit prefill, with the defaults of a new thesis for missing values. */
  function Prefill(t: Thesis, currentYear: int): Form {
    Form(t.title, t.author, TextListField(t.guideNames), t.institution, OrEmpty(t.department),
         Num((if t.year.Some? && t.year.value != 0 then t.year.value else currentYear) as real),
         TextOr(t.category, "MS Thesis"), TextOr(t.thesisType, "Thesis"), OrEmpty(t.abstractText),
         OrEmpty(t.contentHtml), TextListField(t.keywords), Num(OrZero(t.pages) as real),
         DateField(t.submissionDate), DateField(t.approvalDate), DateField(t.defenseDate),
         OrEmpty(t.grade), OrEmpty(t.pdfUrl), OrEmpty(t.coverImageUrl), OrEmpty(t.universityRegistrationNumber),
         Num(OrZeroReal(t.rating)), TextOr(t.status, "published"), t.isFeatured.GetOr(false))
  }

  /** The rules a thesis must meet, stated positively. */
  predicate Acceptable(f: Form) {
    RequiredPresent(f) && NumbersInRange(f)
  }

  /** Title, author and institution are filled in and within their caps; category and abstract are present. */
  predicate RequiredPresent(f: Form) {
    && !IsBlank(f.title) && Utf16Length(f.title) <= 500
    && !IsBlank(f.author) && Utf16Length(f.author) <= 300
    && !IsBlank(f.institution) && Utf16Length(f.institution) <= 300
    && f.category != ""
    && !IsBlank(f.abstractText)
  }

  /** The year is given and in [1900, 2100]; pages and rating are not outside their ranges. */
  predicate NumbersInRange(f: Form) {
    && RequiredIntInRange(f.year, 1900, 2100)
    && NotOutside(f.pages, 0.0, 10000.0)
    && NotOutside(f.rating, 0.0, 5.0)
  }

  const Keys: set<Key<Field>> :=
    {On(Title), On(Author), On(Institution), On(Year), On(Category), On(Abstract), On(Pages), On(Rating)}

  /** The condition of each `if` of `validateForm`; the other inputs are never checked. */
  predicate Broken(f: Form, fd: Field) {
    match fd
    case Title => MissingOrTooLong(f.title, 500)
    case Author => MissingOrTooLong(f.author, 300)
    case Institution => MissingOrTooLong(f.institution, 300)
    case Year => !RequiredIntInRange(f.year, 1900, 2100)
    case Category => f.category == ""
    case Abstract => IsBlank(f.abstractText)
    case Pages => !NotOutside(f.pages, 0.0, 10000.0)
    case Rating => !NotOutside(f.rating, 0.0, 5.0)
    case _ => false
  }

  /** The message `validateForm` records for a broken rule. */
  function Message(f: Form, fd: Field): Message<Field> {
    match fd
    case Title => Rule(RequiredProblem(f.title, Title))
    case Author => Rule(RequiredProblem(f.author, Author))
    case Institution => Rule(RequiredProblem(f.institution, Institution))
    case Year => Rule(if Truthy(f.year) then OutOfRange(Year) else Required(Year))
    case Category | Abstract => Rule(Required(fd))
    case _ => Rule(OutOfRange(fd))
  }

  /** The text the form displays for a problem of a checked input. */
  function Wording(p: Problem<Field>): (s: string)
    requires On(p.field) in Keys
    ensures s != ""
  {
    match p.field
    case Title => if p.Required? then "Title is required" else "Title cannot exceed 500 characters"
    case Author => if p.Required? then "Author is required" else "Author cannot exceed 300 characters"
    case Institution => if p.Required? then "Institution is required" else "Institution cannot exceed 300 characters"
    case Year => if p.Required? then "Year is required" else "Year must be between 1900 and 2100"
    case Category => "Category is required"
    case Abstract => "Abstract is required"
    case Pages => "Pages must be between 0 and 10000"
    case Rating => "Rating must be between 0 and 5"
    case _ => assert false; ""
  }

  /** `validateForm`: the message of every broken rule, keyed by its input. */
  function Validate(f: Form): Errors<Field> {
    map k | k in Keys && k.On? && Broken(f, k.field) :: Message(f, k.field)
  }

  /** An input is reported exactly when its rule is broken, with that rule's message. */
  lemma ValidateReports(f: Form, fd: Field)
    ensures On(fd) in Validate(f) <==> Broken(f, fd)
    ensures On(fd) in Validate(f) ==> Validate(f)[On(fd)] == Message(f, fd)
  {
  }

  /** The form is acceptable exactly when no rule is broken. */
  lemma AcceptableIffNoneBroken(f: Form)
    ensures Acceptable(f) <==> forall fd :: !Broken(f, fd)
  {
    if forall fd :: !Broken(f, fd) {
      assert !Broken(f, Title) && !Broken(f, Author) && !Broken(f, Institution) && !Broken(f, Category);
      assert !Broken(f, Abstract) && !Broken(f, Year) && !Broken(f, Pages) && !Broken(f, Rating);
      RequiredFromFields(f);
      NumbersFromFields(f);
    }
  }

  lemma RequiredFromFields(f: Form)
    requires !Broken(f, Title) && !Broken(f, Author) && !Broken(f, Institution) && !Broken(f, Category)
    requires !Broken(f, Abstract)
    ensures RequiredPresent(f)
  {
  }

  lemma NumbersFromFields(f: Form)
    requires !Broken(f, Year) && !Broken(f, Pages) && !Broken(f, Rating)
    ensures NumbersInRange(f)
  {
    YearFromField(f);
    PagesFromField(f);
    RatingFromField(f);
  }

  lemma YearFromField(f: Form)
    requires !Broken(f, Year)
    ensures RequiredIntInRange(f.year, 1900, 2100)
  {
  }

  lemma PagesFromField(f: Form)
    requires !Broken(f, Pages)
    ensures NotOutside(f.pages, 0.0, 10000.0)
  {
  }

  lemma RatingFromField(f: Form)
    requires !Broken(f, Rating)
    ensures NotOutside(f.rating, 0.0, 5.0)
  {
  }

  /** Title, author and institution are required; only a non-blank one is reported as too long. */
  lemma RequiredTextRules(f: Form)
    ensures On(Title) in Validate(f) <==> IsBlank(f.title) || Utf16Length(f.title) > 500
    ensures On(Author) in Validate(f) <==> IsBlank(f.author) || Utf16Length(f.author) > 300
    ensures On(Institution) in Validate(f) <==> IsBlank(f.institution) || Utf16Length(f.institution) > 300
  {
    ValidateReports(f, Title);
    ValidateReports(f, Author);
    ValidateReports(f, Institution);
  }

  /** A blank required text is reported as missing rather than too long. */
  lemma BlankReportedAsMissing(f: Form, fd: Field)
    requires fd == Title || fd == Author || fd == Institution
    requires IsBlank(Get(f, fd).text)
    ensures On(fd) in Validate(f) && Validate(f)[On(fd)] == Rule(Required(fd))
  {
    ValidateReports(f, fd);
  }

  /** The category must be chosen (it is not trimmed) and the abstract must not be blank. */
  lemma CategoryAndAbstractRules(f: Form)
    ensures On(Category) in Validate(f) <==> f.category == ""
    ensures On(Abstract) in Validate(f) <==> IsBlank(f.abstractText)
  {
    ValidateReports(f, Category);
    ValidateReports(f, Abstract);
  }

  /** An empty year is reported as missing; a present one must parse into [1900, 2100]. */
  lemma YearRule(f: Form)
    ensures On(Year) in Validate(f) <==> !Truthy(f.year) || !(IntOf(f.year).Some? && 1900 <= IntOf(f.year).value <= 2100)
    ensures On(Year) in Validate(f) ==> Validate(f)[On(Year)] == Rule(if Truthy(f.year) then OutOfRange(Year) else Required(Year))
  {
    ValidateReports(f, Year);
  }

  /** Pages and rating are reported only when `Number` reads them below zero or above the maximum. */
  lemma CountRules(f: Form)
    ensures On(Pages) in Validate(f) <==> Below(f.pages, 0.0) || Above(f.pages, 10000.0)
    ensures On(Rating) in Validate(f) <==> Below(f.rating, 0.0) || Above(f.rating, 5.0)
  {
    CountReported(f, Pages);
    CountReported(f, Rating);
  }

  /** One count input has an entry exactly when it compares outside its bounds. */
  lemma CountReported(f: Form, fd: Field)
    requires fd == Pages || fd == Rating
    ensures fd == Pages ==> (On(fd) in Validate(f) <==> Below(f.pages, 0.0) || Above(f.pages, 10000.0))
    ensures fd == Rating ==> (On(fd) in Validate(f) <==> Below(f.rating, 0.0) || Above(f.rating, 5.0))
  {
    ValidateReports(f, fd);
  }

  /** `validateForm` returns true exactly when it records no error, which is when the thesis is acceptable. */
  lemma ValidIffEmpty(f: Form)
    ensures Validate(f) == map[] <==> Acceptable(f)
  {
    AcceptableIffNoneBroken(f);
    if !Acceptable(f) {
      var fd :| Broken(f, fd);
      ValidateReports(f, fd);
    }
  }

  /** The body sent to `createThesis` / `updateThesis`; `None` is JSON `null`. */
  datatype Payload = Payload(
    title: string,
    author: string,
    guideNames: Option<string>,
    institution: string,
    department: Option<string>,
    year: Option<int>,
    category: string,
    thesisType: Option<string>,
    abstractText: string,
    contentHtml: Option<string>,
    keywords: Option<string>,
    pages: int,
    submissionDate: Option<string>,
    approvalDate: Option<string>,
    defenseDate: Option<string>,
    grade: Option<string>,
    pdfUrl: Option<string>,
    coverImageUrl: Option<string>,
    universityRegistrationNumber: Option<string>,
    rating: real,
    status: string,
    isFeatured: bool)

  /**
   * `submitData`: the required text as typed, optional text `null` when empty, the year
   * parsed, pages and rating parsed with `NaN` and empty becoming 0.
   */
  function ToPayload(f: Form): (p: Payload)
    ensures p.title == f.title && p.author == f.author && p.institution == f.institution
    ensures p.category == f.category && p.abstractText == f.abstractText && p.status == f.status
    ensures p.isFeatured == f.isFeatured
    ensures p.guideNames == NullIfEmpty(f.guideNames) && p.keywords == NullIfEmpty(f.keywords)
    ensures p.department == NullIfEmpty(f.department) && p.thesisType == NullIfEmpty(f.thesisType)
    ensures p.contentHtml == NullIfEmpty(f.contentHtml) && p.grade == NullIfEmpty(f.grade)
    ensures p.submissionDate == NullIfEmpty(f.submissionDate) && p.approvalDate == NullIfEmpty(f.approvalDate)
    ensures p.defenseDate == NullIfEmpty(f.defenseDate) && p.pdfUrl == NullIfEmpty(f.pdfUrl)
    ensures p.coverImageUrl == NullIfEmpty(f.coverImageUrl)
    ensures p.universityRegistrationNumber == NullIfEmpty(f.universityRegistrationNumber)
    ensures p.year == IntOf(f.year) && p.pages == OrZero(IntOf(f.pages)) && p.rating == OrZeroReal(FloatOf(f.rating))
  {
    Payload(f.title, f.author, NullIfEmpty(f.guideNames), f.institution, NullIfEmpty(f.department),
            IntOf(f.year), f.category, NullIfEmpty(f.thesisType), f.abstractText, NullIfEmpty(f.contentHtml),
            NullIfEmpty(f.keywords), OrZero(IntOf(f.pages)), NullIfEmpty(f.submissionDate),
            NullIfEmpty(f.approvalDate), NullIfEmpty(f.defenseDate), NullIfEmpty(f.grade), NullIfEmpty(f.pdfUrl),
            NullIfEmpty(f.coverImageUrl), NullIfEmpty(f.universityRegistrationNumber),
            OrZeroReal(FloatOf(f.rating)), f.status, f.isFeatured)
  }

  /** `handleSubmit`: an invalid form is never handed to `onSubmit`. */
  function HandleSubmit(f: Form): (s: Submission<Field, Payload>)
    ensures s.Blocked? <==> !Acceptable(f)
    ensures s.errors == Validate(f)
    ensures s.Blocked? ==> s.errors == Validate(f) && s.errors != map[]
    ensures s.Sent? ==> s.errors == map[]
    ensures s.Sent? ==> s.payload == ToPayload(f)
  {
    var e := Validate(f);
    ValidIffEmpty(f);
    if e != map[] then Blocked(e) else Sent(e, ToPayload(f))
  }

  /** A submitted thesis always carries a year in [1900, 2100]. */
  lemma SentYearInRange(f: Form)
    requires HandleSubmit(f).Sent?
    ensures HandleSubmit(f).payload.year.Some?
    ensures 1900 <= HandleSubmit(f).payload.year.value <= 2100
  {
  }

  /**
   * Pages and rating that `Number` reads as numbers are sent within their ranges: validation
   * compares with `Number`, the payload uses `parseInt` / `parseFloat`, and on such values they agree.
   */
  lemma SentCountsInRange(f: Form)
    requires HandleSubmit(f).Sent?
    requires NumberOf(f.pages).Some? && NumberOf(f.rating).Some?
    ensures 0 <= HandleSubmit(f).payload.pages <= 10000
    ensures 0.0 <= HandleSubmit(f).payload.rating <= 5.0
  {
    NotOutsideIntSent(f.pages, 0, 10000);
    NotOutsideRealSent(f.rating, 0.0, 5.0);
  }

  /** A new thesis starts with the current year, which passes validation within [1900, 2100]. */
  lemma InitialYear(currentYear: int)
    ensures Initial(currentYear).year == Num(currentYear as real)
    ensures !Broken(Initial(currentYear), Year) <==> 1900 <= currentYear <= 2100
  {
    IntOfPrefilled(currentYear);
  }

  /**
   * Editing a thesis and submitting it unchanged sends back its required text, its year
   * (or the current year when it had none), and its dates cut to the date part.
   */
  lemma PrefillRoundTrip(t: Thesis, currentYear: int)
    ensures var p := ToPayload(Prefill(t, currentYear));
      && p.title == t.title && p.author == t.author && p.institution == t.institution
      && p.year == Some(if t.year.Some? && t.year.value != 0 then t.year.value else currentYear)
      && p.submissionDate == NullIfEmpty(DateField(t.submissionDate))
      && p.approvalDate == NullIfEmpty(DateField(t.approvalDate))
      && p.defenseDate == NullIfEmpty(DateField(t.defenseDate))
      && p.isFeatured == (t.isFeatured == Some(true))
  {
    IntOfPrefilled(if t.year.Some? && t.year.value != 0 then t.year.value else currentYear);
  }

  function Get(f: Form, fd: Field): Value {
    match fd
    case Title => Str(f.title)
    case Author => Str(f.author)
    case GuideNames => Str(f.guideNames)
    case Institution => Str(f.institution)
    case Department => Str(f.department)
    case Year => f.year
    case Category => Str(f.category)
    case ThesisType => Str(f.thesisType)
    case Abstract => Str(f.abstractText)
    case ContentHtml => Str(f.contentHtml)
    case Keywords => Str(f.keywords)
    case Pages => f.pages
    case SubmissionDate => Str(f.submissionDate)
    case ApprovalDate => Str(f.approvalDate)
    case DefenseDate => Str(f.defenseDate)
    case Grade => Str(f.grade)
    case PdfUrl => Str(f.pdfUrl)
    case CoverImageUrl => Str(f.coverImageUrl)
    case UniversityRegistrationNumber => Str(f.universityRegistrationNumber)
    case Rating => f.rating
    case Status => Str(f.status)
  }

  function Set(f: Form, fd: Field, v: string): Form {
    match fd
    case Title => f.(title := v)
    case Author => f.(author := v)
    case GuideNames => f.(guideNames := v)
    case Institution => f.(institution := v)
    case Department => f.(department := v)
    case Year => f.(year := Str(v))
    case Category => f.(category := v)
    case ThesisType => f.(thesisType := v)
    case Abstract => f.(abstractText := v)
    case ContentHtml => f.(contentHtml := v)
    case Keywords => f.(keywords := v)
    case Pages => f.(pages := Str(v))
    case SubmissionDate => f.(submissionDate := v)
    case ApprovalDate => f.(approvalDate := v)
    case DefenseDate => f.(defenseDate := v)
    case Grade => f.(grade := v)
    case PdfUrl => f.(pdfUrl := v)
    case CoverImageUrl => f.(coverImageUrl := v)
    case UniversityRegistrationNumber => f.(universityRegistrationNumber := v)
    case Rating => f.(rating := Str(v))
    case Status => f.(status := v)
  }

  /**
   * `handleChange` for a text input: the named field takes the typed text, every other
   * input keeps its value, and that field's error is blanked to `''`.
   */
  function HandleChange(f: Form, e: Errors<Field>, fd: Field, v: string): (r: (Form, Errors<Field>))
    ensures Get(r.0, fd) == Str(v) && r.0.isFeatured == f.isFeatured
    ensures forall g :: g != fd ==> Get(r.0, g) == Get(f, g)
    ensures !Shown(r.1, On(fd))
    ensures forall k :: k != On(fd) ==> (k in r.1 <==> k in e)
    ensures forall k :: k != On(fd) && k in e ==> r.1[k] == e[k]
  {
    SetChangesOnlyField(f, fd, v);
    (Set(f, fd, v), BlankedOnChange(e, On(fd)))
  }

  /** Setting one input leaves every other input, and the featured flag, as it was. */
  lemma SetChangesOnlyField(f: Form, fd: Field, v: string)
    ensures Get(Set(f, fd, v), fd) == Str(v) && Set(f, fd, v).isFeatured == f.isFeatured
    ensures forall g :: g != fd ==> Get(Set(f, fd, v), g) == Get(f, g)
  {
    forall g | g != fd
      ensures Get(Set(f, fd, v), g) == Get(f, g)
    {
      SetKeeps(f, fd, g, v);
    }
  }

  lemma SetKeeps(f: Form, fd: Field, g: Field, v: string)
    requires g != fd
    ensures Get(Set(f, fd, v), g) == Get(f, g)
  {
    match fd {
      case Year => assert Set(f, fd, v) == f.(year := Str(v));
      case Pages => assert Set(f, fd, v) == f.(pages := Str(v));
      case Rating => assert Set(f, fd, v) == f.(rating := Str(v));
      case _ =>
    }
  }

  /**
   * `handleChange` for the featured checkbox: only the flag changes. No rule reports the
   * flag, so there is never an error of its own to blank.
   */
  function HandleCheck(f: Form, e: Errors<Field>, checked: bool): (r: (Form, Errors<Field>))
    ensures r.0.isFeatured == checked
    ensures forall g :: Get(r.0, g) == Get(f, g)
    ensures r.1 == e
  {
    (f.(isFeatured := checked), e)
  }
}
