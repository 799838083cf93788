/**
 * The chapter create/edit form shared by the book and textbook chapter pages: prefill,
 * validation, field changes, the preview switch and the submitted payload.
 */
module ChapterForm {
  import opened Optional
  import opened Strings
  import opened Numbers
  import opened FormErrors
  import opened Entities

  datatype Form = Form(
    chapterNumber: Value,
    chapterTitle: string,
    chapterSubtitle: string,
    contentHtml: string,
    summary: string,
    wordCount: Value,
    readingTimeMinutes: Value,
    displayOrder: Value)

  datatype Field =
    | ChapterNumber | ChapterTitle | ChapterSubtitle | ContentHtml | Summary
    | WordCount | ReadingTimeMinutes | DisplayOrder

  /** The empty form shown for a new chapter. */
  const Initial := Form(Str(""), "", "", "", "", Str(""), Str(""), Str(""))

  /** The edit prefill: missing text becomes `''`, non-zero numbers stay numbers. */
  function Prefill(c: Chapter): Form {
    Form(IntOrEmpty(Some(c.chapterNumber)), c.chapterTitle, OrEmpty(c.chapterSubtitle), OrEmpty(c.contentHtml),
         OrEmpty(c.summary), IntOrEmpty(c.wordCount), IntOrEmpty(c.readingTimeMinutes), IntOrEmpty(c.displayOrder))
  }

  /**
   * The rules a chapter must meet, stated positively. The chapter number is compared with
   * `<`, so a value `Number` cannot read (`NaN`) is not below one and passes.
   */
  predicate Acceptable(f: Form) {
    && Truthy(f.chapterNumber) && !Below(f.chapterNumber, 1.0)
    && !IsBlank(f.chapterTitle) && Utf16Length(f.chapterTitle) <= 500
    && Utf16Length(f.chapterSubtitle) <= 500
    && !IsBlank(f.contentHtml)
    && Utf16Length(f.summary) <= 2000
  }

  const Keys: set<Key<Field>> := {On(ChapterNumber), On(ChapterTitle), On(ChapterSubtitle), On(ContentHtml), On(Summary)}

  /** The condition of each `if` of `validateForm`; the three counts are never checked. */
  predicate Broken(f: Form, fd: Field) {
    match fd
    case ChapterNumber => !Truthy(f.chapterNumber) || Below(f.chapterNumber, 1.0)
    case ChapterTitle => MissingOrTooLong(f.chapterTitle, 500)
    case ChapterSubtitle => Utf16Length(f.chapterSubtitle) > 500
    case ContentHtml => IsBlank(f.contentHtml)
    case Summary => Utf16Length(f.summary) > 2000
    case _ => false
  }

  /** The message `validateForm` records for a broken rule. */
  function Message(f: Form, fd: Field): Message<Field> {
    match fd
    case ChapterNumber => Rule(if Truthy(f.chapterNumber) then OutOfRange(ChapterNumber) else Required(ChapterNumber))
    case ChapterTitle => Rule(RequiredProblem(f.chapterTitle, ChapterTitle))
    case ContentHtml => Rule(Required(ContentHtml))
    case _ => Rule(TooLong(fd))
  }

  /** The text the form displays for a problem of a checked input. */
  function Wording(p: Problem<Field>): (s: string)
    requires On(p.field) in Keys
    ensures s != ""
  {
    match p.field
    case ChapterNumber => if p.Required? then "Chapter number is required" else "Chapter number must be positive"
    case ChapterTitle => if p.Required? then "Chapter title is required" else "Chapter title cannot exceed 500 characters"
    case ChapterSubtitle => "Chapter subtitle cannot exceed 500 characters"
    case ContentHtml => "Content HTML is required"
    case Summary => "Summary cannot exceed 2000 characters"
    case _ => assert false; ""
  }

  /** `validateForm`: the message of every broken rule, keyed by its input. */
  function Validate(f: Form): Errors<Field> {
    map k | k in Keys && k.On? && Broken(f, k.field) :: Message(f, k.field)
  }

  /** An input is reported exactly when its rule is broken, with that rule's message. */
  lemma ValidateReports(f: Form, fd: Field)
    ensures On(fd) in Validate(f) <==> Broken(f, fd)
    ensures On(fd) in Validate(f) ==> Validate(f)[On(fd)] == Message(f, fd)
  {
  }

  /** The form is acceptable exactly when no rule is broken. */
  lemma AcceptableIffNoneBroken(f: Form)
    ensures Acceptable(f) <==> forall fd :: !Broken(f, fd)
  {
    if forall fd :: !Broken(f, fd) {
      assert !Broken(f, ChapterNumber) && !Broken(f, ChapterTitle) && !Broken(f, ChapterSubtitle);
      assert !Broken(f, ContentHtml) && !Broken(f, Summary);
    }
  }

  /**
   * The chapter number is required and must not be below one: an empty number is reported
   * as missing, a present one below one as not positive.
   */
  lemma ChapterNumberRule(f: Form)
    ensures On(ChapterNumber) in Validate(f) <==> !Truthy(f.chapterNumber) || Below(f.chapterNumber, 1.0)
    ensures On(ChapterNumber) in Validate(f) ==>
      Validate(f)[On(ChapterNumber)] == Rule(if Truthy(f.chapterNumber) then OutOfRange(ChapterNumber) else Required(ChapterNumber))
  {
    ValidateReports(f, ChapterNumber);
  }

  /** The title and the content are required; only a non-blank title is reported as too long. */
  lemma RequiredRules(f: Form)
    ensures On(ChapterTitle) in Validate(f) <==> IsBlank(f.chapterTitle) || Utf16Length(f.chapterTitle) > 500
    ensures On(ChapterTitle) in Validate(f) ==>
      Validate(f)[On(ChapterTitle)] == Rule(if IsBlank(f.chapterTitle) then Required(ChapterTitle) else TooLong(ChapterTitle))
    ensures On(ContentHtml) in Validate(f) <==> IsBlank(f.contentHtml)
  {
    ValidateReports(f, ChapterTitle);
    ValidateReports(f, ContentHtml);
  }

  /** Subtitle and summary are optional and capped at 500 and 2000 characters. */
  lemma LengthCaps(f: Form)
    ensures On(ChapterSubtitle) in Validate(f) <==> Utf16Length(f.chapterSubtitle) > 500
    ensures On(Summary) in Validate(f) <==> Utf16Length(f.summary) > 2000
  {
    ValidateReports(f, ChapterSubtitle);
    ValidateReports(f, Summary);
  }

  /** Word count, reading time and display order are never reported, whatever they hold. */
  lemma CountsUnchecked(f: Form)
    ensures On(WordCount) !in Validate(f) && On(ReadingTimeMinutes) !in Validate(f) && On(DisplayOrder) !in Validate(f)
  {
    ValidateReports(f, WordCount);
    ValidateReports(f, ReadingTimeMinutes);
    ValidateReports(f, DisplayOrder);
  }

  /** `validateForm` returns true exactly when it records no error, which is when the chapter is acceptable. */
  lemma ValidIffEmpty(f: Form)
    ensures Validate(f) == map[] <==> Acceptable(f)
  {
    AcceptableIffNoneBroken(f);
    if !Acceptable(f) {
      var fd :| Broken(f, fd);
      ValidateReports(f, fd);
    }
  }

  /** The body sent to `createChapter` / `updateChapter`; `None` is JSON `null`. */
  datatype Payload = Payload(
    chapterNumber: Option<int>,
    chapterTitle: string,
    chapterSubtitle: string,
    contentHtml: string,
    summary: string,
    wordCount: Option<int>,
    readingTimeMinutes: Option<int>,
    displayOrder: Option<int>)

  /** `submitData`: the chapter number always parsed, the counts parsed when non-empty, the text as typed. */
  function ToPayload(f: Form): (p: Payload)
    ensures p.chapterNumber == IntOf(f.chapterNumber)
    ensures p.chapterTitle == f.chapterTitle && p.chapterSubtitle == f.chapterSubtitle
    ensures p.contentHtml == f.contentHtml && p.summary == f.summary
    ensures p.wordCount == IntOrNull(f.wordCount) && p.readingTimeMinutes == IntOrNull(f.readingTimeMinutes)
    ensures p.displayOrder == IntOrNull(f.displayOrder)
  {
    Payload(IntOf(f.chapterNumber), f.chapterTitle, f.chapterSubtitle, f.contentHtml, f.summary,
            IntOrNull(f.wordCount), IntOrNull(f.readingTimeMinutes), IntOrNull(f.displayOrder))
  }

  /** `handleSubmit`: an invalid form is never handed to `onSubmit`. */
  function HandleSubmit(f: Form): (s: Submission<Field, Payload>)
    ensures s.Blocked? <==> !Acceptable(f)
    ensures s.errors == Validate(f)
    ensures s.Blocked? ==> s.errors == Validate(f) && s.errors != map[]
    ensures s.Sent? ==> s.errors == map[]
    ensures s.Sent? ==> s.payload == ToPayload(f)
  {
    var e := Validate(f);
    ValidIffEmpty(f);
    if e != map[] then Blocked(e) else Sent(e, ToPayload(f))
  }

  /**
   * A submitted chapter whose number input holds a number carries a chapter number of at
   * least one: validation reads it with `Number`, the payload with `parseInt`, and both agree.
   */
  lemma SentChapterNumberPositive(f: Form)
    requires HandleSubmit(f).Sent?
    requires NumberOf(f.chapterNumber).Some?
    ensures HandleSubmit(f).payload.chapterNumber.Some?
    ensures HandleSubmit(f).payload.chapterNumber.value >= 1
  {
    var x := NumberOf(f.chapterNumber).value;
    assert x >= 1.0;
    IntOfNumber(f.chapterNumber);
    TruncSpec(x);
  }

  /**
   * Editing a chapter and submitting it unchanged sends back its number, title and texts;
   * missing text becomes `''`, and a number of 0 (falsy) is prefilled empty and becomes
   * `null`, which for the chapter number also makes the form unacceptable.
   */
  lemma PrefillRoundTrip(c: Chapter)
    ensures var p := ToPayload(Prefill(c));
      && p.chapterNumber == (if c.chapterNumber == 0 then None else Some(c.chapterNumber))
      && p.chapterTitle == c.chapterTitle && p.chapterSubtitle == OrEmpty(c.chapterSubtitle)
      && p.contentHtml == OrEmpty(c.contentHtml) && p.summary == OrEmpty(c.summary)
      && p.wordCount == (if c.wordCount == Some(0) then None else c.wordCount)
      && p.readingTimeMinutes == (if c.readingTimeMinutes == Some(0) then None else c.readingTimeMinutes)
      && p.displayOrder == (if c.displayOrder == Some(0) then None else c.displayOrder)
    ensures c.chapterNumber == 0 ==> !Acceptable(Prefill(c))
  {
    IntOfPrefill(Some(c.chapterNumber));
    IntOfPrefill(c.wordCount);
    IntOfPrefill(c.readingTimeMinutes);
    IntOfPrefill(c.displayOrder);
  }

  function Get(f: Form, fd: Field): Value {
    match fd
    case ChapterNumber => f.chapterNumber
    case ChapterTitle => Str(f.chapterTitle)
    case ChapterSubtitle => Str(f.chapterSubtitle)
    case ContentHtml => Str(f.contentHtml)
    case Summary => Str(f.summary)
    case WordCount => f.wordCount
    case ReadingTimeMinutes => f.readingTimeMinutes
    case DisplayOrder => f.displayOrder
  }

  function Set(f: Form, fd: Field, v: string): Form {
    match fd
    case ChapterNumber => f.(chapterNumber := Str(v))
    case ChapterTitle => f.(chapterTitle := v)
    case ChapterSubtitle => f.(chapterSubtitle := v)
    case ContentHtml => f.(contentHtml := v)
    case Summary => f.(summary := v)
    case WordCount => f.(wordCount := Str(v))
    case ReadingTimeMinutes => f.(readingTimeMinutes := Str(v))
    case DisplayOrder => f.(displayOrder := Str(v))
  }

  /**
   * `handleChange`: the named field takes the typed text, every other field keeps its value,
   * and only that field's error is cleared.
   */
  function HandleChange(f: Form, e: Errors<Field>, fd: Field, v: string): (r: (Form, Errors<Field>))
    ensures Get(r.0, fd) == Str(v)
    ensures forall g :: g != fd ==> Get(r.0, g) == Get(f, g)
    ensures !Shown(r.1, On(fd))
    ensures forall k :: k != On(fd) ==> (k in r.1 <==> k in e)
    ensures forall k :: k != On(fd) && k in e ==> r.1[k] == e[k]
  {
    (Set(f, fd, v), ClearedOnChange(e, On(fd)))
  }

  /** `togglePreview`: each press switches between the editor and the rendered preview. */
  function TogglePreview(showPreview: bool): (r: bool)
    ensures r != showPreview
  {
    !showPreview
  }
}
