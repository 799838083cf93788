# vedic-admin console, modelled in Dafny

This project models the React admin console of the vedic-admin system. Its pages manage
books, textbooks, chapters, theses, research papers, contact submissions and newsletter
subscriptions. Only the Dashboard, the books page and the chapters page are routed by
`src/App.js:53-58`; the other pages exist as components that no route mounts, and the model
treats each of them as it would behave where it is mounted. The model covers:

- **The five entry forms** (`BookForm`, `TextbookForm`, `ChapterForm`, `ThesisForm`,
  `ResearchPaperForm`): prefill from a record, the validation rules and their error map,
  clearing an error on change, and the payload sent on submit. This includes JavaScript's
  `parseInt`/`parseFloat`/`Number` coercions, which decide what the numeric inputs send.
- **The list pages** (`BooksPage`, `TextbooksPage`, `ThesisPage`, `ResearchPapersPage`,
  `ContactSubmissionsPage`, `NewsletterSubscriptionsPage`): search and dropdown filters,
  badges, statistics cards, and the add/edit/preview/delete/save state transitions with
  their error and success banners. The model also covers the newsletter CSV export.
- **The two chapter pages** (`ChaptersPage`, `TextbookChaptersPage`): parent selection and
  auto-selection, chapter actions under the selected parent, and the sorted chapter table.
- **The `Dashboard`**: its totals and its recent-books list.
- **The API service** (`api.js`): the response interceptor that unwraps `{ data: ... }`, the
  error-message chain, and the request each book and chapter endpoint issues.

The model has no HTTP, React state or timers. Each page handler is a pure function from the
page state and the outcome of its backend call (`Crud.Outcome`: loaded value or failure
message) to the next page state and the call it issued. Anything that depends on the clock
or the browser's locale is a parameter.

Shared modules:

- `Optional`: `Option` and `x || fallback`.
- `Numbers`: JavaScript number parsing on decimal strings, and form values that are text or
  number.
- `Strings`: trim, lower case, `includes`, `join`/`split`, UTF-16 lengths, previews, `split('T')[0]`.
- `Seqs`: filter, count, sum, take, stable sort.
- `Search`: the shared "blank search shows all, otherwise lowercase `includes`" filter.
- `Crud`: the page state every CRUD page keeps.
- `FormErrors`: the error map shared by the forms.
- `StatsCards`: the four-card statistics panel.
- `Badges`: the badge colour classes, and the publication-status badge two tables share.
- `Entities`: the records as the backend sends them.

## Model

| member | source | states |
|---|---|---|
| BookForm.ValidIffEmpty | src/components/BookForm.js:34-78 | `validateForm` returns an empty error map exactly when every rule of the book form holds |
| BookForm.Prefill | src/components/BookForm.js:19-32 | the edit prefill: each missing field becomes `''` and the year keeps its number unless it is 0; PrefillRoundTrip states what a prefilled form sends back |
| BookForm.Validate | src/components/BookForm.js:34-78 | `validateForm`'s error map: ValidateReports states that an input has an entry exactly when its rule is broken, with that rule's message, and ValidIffEmpty that the map is empty exactly when the form is acceptable |
| BookForm.ValidateReports | src/components/BookForm.js:34-78 | an input has an entry in the error map exactly when its own rule is broken, and the entry is that rule's message |
| BookForm.AcceptableIffNoneBroken | src/components/BookForm.js:34-78 | the form-level acceptance condition is equivalent to no single input being broken |
| BookForm.RequiredRules | src/components/BookForm.js:37-47 | title is rejected iff blank after trimming or over 500 UTF-16 code units (`.length`), author iff blank or over 200; blank is reported as "required", otherwise "too long" |
| BookForm.CappedBroken | src/components/BookForm.js:49-75 | each optional text input (description 2000, cover URL 500, category 100, language 50, ISBN 20) is broken exactly when its UTF-16 length exceeds its cap |
| BookForm.LengthCaps | src/components/BookForm.js:49-75 | for every capped input, the error map has an entry iff the text's UTF-16 length exceeds the cap |
| BookForm.YearRule | src/components/BookForm.js:65-70 | a non-empty publication year is rejected iff `parseInt` gives no integer in 1..9999; an empty one is never rejected |
| BookForm.Wording | src/components/BookForm.js:34-78 | every validation message of the book form is non-empty, so it is displayed |
| BookForm.HandleSubmit | src/components/BookForm.js:95-118 | submit is blocked with the validation errors iff the form is not acceptable; otherwise it sends exactly the converted payload with the shown errors reset to `{}`, so a stale submit error disappears |
| BookForm.ToPayload | src/components/BookForm.js:104-110 | text inputs are sent unchanged; publication year is `parseInt` of a non-empty input, else null |
| BookForm.SentYearInRange | src/components/BookForm.js:65-70 | a payload that gets past validation carries no year or a year in 1..9999, and a filled year input is never sent as null |
| BookForm.PrefillRoundTrip | src/components/BookForm.js:19-32 | editing a book and submitting unchanged sends its title, author, description, ISBN and year back; only a zero year becomes null |
| BookForm.HandleChange | src/components/BookForm.js:80-93 | a change sets exactly the edited input, hides that input's error, and keeps every other error as it was |
| TextbookForm.ValidIffEmpty | src/components/TextbookForm.js:46-120 | the error map is empty exactly when every textbook rule holds |
| TextbookForm.Prefill | src/components/TextbookForm.js:25-44 | the edit prefill with `\|\| ''` on every field; the numbers are stated by ToPayload and SentNumbersInRange |
| TextbookForm.Validate | src/components/TextbookForm.js:46-119 | `validateForm`'s error map: ValidateReports gives each entry and its message, ValidIffEmpty its emptiness, NumberRules and the cap lemmas the individual rules |
| TextbookForm.ValidateReports | src/components/TextbookForm.js:46-120 | an input has an entry iff its own rule is broken, with that rule's message |
| TextbookForm.AcceptableIffNoneBroken | src/components/TextbookForm.js:46-120 | acceptance is equivalent to no single input being broken |
| TextbookForm.AcceptableFromFields | src/components/TextbookForm.js:46-120 | when none of the fourteen inputs is broken, the whole form is acceptable |
| TextbookForm.TextsFromFields | src/components/TextbookForm.js:60-106 | the optional text inputs that are not broken are all within their caps in UTF-16 code units |
| TextbookForm.RequiredRules | src/components/TextbookForm.js:49-59 | title is rejected iff blank or over 500 UTF-16 code units, author iff blank or over 200, and blank is reported as missing |
| TextbookForm.CappedRule | src/components/TextbookForm.js:60-106 | each capped text input (including status 50, tags 1000, level 50, year 50) is rejected exactly when its UTF-16 length exceeds its cap |
| TextbookForm.LengthCaps | src/components/TextbookForm.js:60-106 | for every capped input at once, an error entry iff its UTF-16 length exceeds the cap |
| TextbookForm.NumberRules | src/components/TextbookForm.js:76-116 | filled publication year, rating and page count are rejected iff their parse fails or falls outside 1..9999, 0..5 and 1..10000 |
| TextbookForm.Wording | src/components/TextbookForm.js:46-120 | every textbook validation message is non-empty |
| TextbookForm.ExtrasOf | src/components/TextbookForm.js:154-157 | an edited textbook keeps its chapter count (0 when absent), and stays active unless it was explicitly inactive |
| TextbookForm.ToPayload | src/components/TextbookForm.js:146-158 | text inputs are sent unchanged, numbers parsed or null when empty, and the extras are added exactly when editing |
| TextbookForm.HandleSubmit | src/components/TextbookForm.js:137-167 | blocked with the errors iff not acceptable, else sends the payload built against the edited record; either way the shown errors become the validation result, `{}` when sent |
| TextbookForm.SentNumbersInRange | src/components/TextbookForm.js:76-116 | a sent textbook carries each number either null or within its validated range |
| TextbookForm.HandleChange | src/components/TextbookForm.js:122-135 | a change sets only the edited input and hides only its error |
| ChapterForm.ValidIffEmpty | src/components/ChapterForm.js:35-64 | the error map is empty exactly when every chapter rule holds |
| ChapterForm.Prefill | src/components/ChapterForm.js:20-33 | the edit prefill with `\|\| ''` on every field, so a 0 becomes empty; PrefillRoundTrip states what it sends back |
| ChapterForm.Validate | src/components/ChapterForm.js:35-63 | `validateForm`'s error map: ValidateReports gives each entry and its message, ValidIffEmpty its emptiness, ChapterNumberRule and RequiredRules the individual rules |
| ChapterForm.ValidateReports | src/components/ChapterForm.js:35-64 | an input has an entry iff its own rule is broken, with that rule's message |
| ChapterForm.AcceptableIffNoneBroken | src/components/ChapterForm.js:35-64 | acceptance is equivalent to no single input being broken |
| ChapterForm.ChapterNumberRule | src/components/ChapterForm.js:38-42 | the chapter number is rejected iff empty or below 1 by numeric comparison; empty is "required" |
| ChapterForm.RequiredRules | src/components/ChapterForm.js:44-56 | title is rejected iff blank or over 500 UTF-16 code units, content iff blank |
| ChapterForm.LengthCaps | src/components/ChapterForm.js:50-60 | subtitle is rejected iff over 500 UTF-16 code units, summary iff over 2000 |
| ChapterForm.CountsUnchecked | src/components/ChapterForm.js:35-64 | word count, reading time and display order are never validated |
| ChapterForm.Wording | src/components/ChapterForm.js:35-64 | every chapter validation message is non-empty |
| ChapterForm.HandleSubmit | src/components/ChapterForm.js:81-107 | blocked with the errors iff not acceptable, else sends the converted payload; either way the shown errors become the validation result, `{}` when sent |
| ChapterForm.ToPayload | src/components/ChapterForm.js:92-98 | the chapter number is `parseInt` of its input; the counts are parsed or null when empty; texts unchanged |
| ChapterForm.SentChapterNumberPositive | src/components/ChapterForm.js:38-42 | a chapter that gets past validation is sent with a chapter number of at least 1 |
| ChapterForm.PrefillRoundTrip | src/components/ChapterForm.js:20-33 | editing a chapter and submitting unchanged sends its number, title and texts back; a zero chapter number, word count, reading time or display order is prefilled empty and sent as null, and a zero chapter number makes the form unacceptable |
| ChapterForm.HandleChange | src/components/ChapterForm.js:66-79 | a change sets only the edited input and hides only its error |
| ChapterForm.TogglePreview | src/components/ChapterForm.js:109-111 | the preview button flips the preview on and off |
| ThesisForm.ValidIffEmpty | src/components/ThesisForm.js:62-110 | the error map is empty exactly when every thesis rule holds |
| ThesisForm.Initial | src/components/ThesisForm.js:5-28 | the empty form of a new thesis, with the current year as a parameter; InitialYear states its year and whether it passes |
| ThesisForm.Prefill | src/components/ThesisForm.js:33-60 | the edit prefill: lists joined, dates cut at `T`, missing text `''`, missing year the current year; PrefillRoundTrip states what it sends back |
| ThesisForm.Validate | src/components/ThesisForm.js:62-109 | `validateForm`'s error map: ValidateReports gives each entry and its message, ValidIffEmpty its emptiness, YearRule, CountRules and RequiredTextRules the individual rules |
| ThesisForm.ValidateReports | src/components/ThesisForm.js:62-110 | an input has an entry iff its own rule is broken, with that rule's message |
| ThesisForm.AcceptableIffNoneBroken | src/components/ThesisForm.js:62-110 | acceptance is equivalent to no single input being broken |
| ThesisForm.RequiredFromFields | src/components/ThesisForm.js:65-98 | unbroken title, author, institution, category and abstract mean all required inputs are present and within their caps in UTF-16 code units |
| ThesisForm.NumbersFromFields | src/components/ThesisForm.js:83-108 | unbroken year, pages and rating mean all three numbers are in range |
| ThesisForm.YearFromField | src/components/ThesisForm.js:83-90 | an unbroken year is present and parses to an integer in 1900..2100 |
| ThesisForm.PagesFromField | src/components/ThesisForm.js:100-102 | unbroken pages do not compare outside 0..10000 |
| ThesisForm.RatingFromField | src/components/ThesisForm.js:104-106 | an unbroken rating does not compare outside 0..5 |
| ThesisForm.RequiredTextRules | src/components/ThesisForm.js:65-81 | title is rejected iff blank or over 500 UTF-16 code units, author and institution iff blank or over 300 |
| ThesisForm.BlankReportedAsMissing | src/components/ThesisForm.js:65-81 | a blank required text input is reported as missing, not as too long |
| ThesisForm.CategoryAndAbstractRules | src/components/ThesisForm.js:92-98 | category is rejected iff empty, abstract iff blank |
| ThesisForm.YearRule | src/components/ThesisForm.js:83-90 | the year is rejected iff empty or not an integer in 1900..2100; empty is "required", otherwise "out of range" |
| ThesisForm.CountRules | src/components/ThesisForm.js:100-106 | pages and rating are rejected iff they compare below 0 or above 10000 (pages) or 5 (rating) |
| ThesisForm.Wording | src/components/ThesisForm.js:62-110 | every thesis validation message is non-empty |
| ThesisForm.DateField | src/components/ThesisForm.js:48-50 | a missing date prefills as empty, a present one as its date part before `T` |
| ThesisForm.HandleSubmit | src/components/ThesisForm.js:124-161 | blocked with the errors iff not acceptable, else sends the converted payload; either way the shown errors become the validation result, `{}` when sent |
| ThesisForm.ToPayload | src/components/ThesisForm.js:134-152 | required texts are sent as typed, optional ones null when empty, year parsed, pages and rating parsed with 0 for a failed parse |
| ThesisForm.SentYearInRange | src/components/ThesisForm.js:83-90 | a sent thesis always has a year, and it lies in 1900..2100 |
| ThesisForm.SentCountsInRange | src/components/ThesisForm.js:100-106 | a sent thesis has pages in 0..10000 and rating in 0..5 |
| ThesisForm.InitialYear | src/components/ThesisForm.js:11 | a new thesis starts with the current year, which passes validation iff it lies in 1900..2100 |
| ThesisForm.PrefillRoundTrip | src/components/ThesisForm.js:33-60 | editing and submitting unchanged sends title, author, institution back; a missing or zero year becomes the current year; the submission, approval and defense dates lose their time part and are sent as null when empty; featured is sent only when it was true |
| ThesisForm.HandleChange | src/components/ThesisForm.js:112-122 | a change sets only the edited input, keeps the featured box, hides only its error |
| ThesisForm.SetChangesOnlyField | src/components/ThesisForm.js:112-122 | writing one input leaves every other input and the featured box as they were |
| ThesisForm.HandleCheck | src/components/ThesisForm.js:116 | the featured checkbox takes the checked state and changes nothing else |
| ResearchPaperForm.ValidIffEmpty | src/components/ResearchPaperForm.js:56-104 | the error map is empty exactly when every research-paper rule holds |
| ResearchPaperForm.Initial | src/components/ResearchPaperForm.js:5-25 | the empty form of a new paper, with the current year as a parameter; InitialYear states its year and whether it passes |
| ResearchPaperForm.Prefill | src/components/ResearchPaperForm.js:30-54 | the edit prefill: authors and keywords joined, the date cut at `T`, missing text `''`, missing year the current year; PrefillRoundTrip states what it sends back |
| ResearchPaperForm.Validate | src/components/ResearchPaperForm.js:56-103 | `validateForm`'s error map: ValidateReports gives each entry and its message, ValidIffEmpty its emptiness, YearRule, CountRules and RequiredTextRules the individual rules |
| ResearchPaperForm.ValidateReports | src/components/ResearchPaperForm.js:56-104 | an input has an entry iff its own rule is broken, with that rule's message |
| ResearchPaperForm.AcceptableIffNoneBroken | src/components/ResearchPaperForm.js:56-104 | acceptance is equivalent to no single input being broken |
| ResearchPaperForm.RequiredFromFields | src/components/ResearchPaperForm.js:59-92 | unbroken title, authors, institution, category and abstract mean all required inputs are present and within their caps in UTF-16 code units |
| ResearchPaperForm.NumbersFromFields | src/components/ResearchPaperForm.js:77-102 | unbroken year, pages and rating mean all three numbers are in range |
| ResearchPaperForm.YearFromField | src/components/ResearchPaperForm.js:77-84 | an unbroken year is present and parses to an integer in 1900..2100 |
| ResearchPaperForm.PagesFromField | src/components/ResearchPaperForm.js:94-96 | unbroken pages do not compare outside 0..10000 |
| ResearchPaperForm.RatingFromField | src/components/ResearchPaperForm.js:98-100 | an unbroken rating does not compare outside 0..5 |
| ResearchPaperForm.RequiredTextRules | src/components/ResearchPaperForm.js:59-75 | title is rejected iff blank or over 500 UTF-16 code units, authors iff blank or over 1000, institution iff blank or over 300 |
| ResearchPaperForm.BlankReportedAsMissing | src/components/ResearchPaperForm.js:59-75 | a blank required text input is reported as missing, not as too long |
| ResearchPaperForm.CategoryAndAbstractRules | src/components/ResearchPaperForm.js:86-92 | category is rejected iff empty, abstract iff blank |
| ResearchPaperForm.YearRule | src/components/ResearchPaperForm.js:77-84 | the year is rejected iff empty or not an integer in 1900..2100, with the matching message |
| ResearchPaperForm.CountRules | src/components/ResearchPaperForm.js:94-100 | pages and rating are rejected iff they compare outside 0..10000 and 0..5 |
| ResearchPaperForm.Wording | src/components/ResearchPaperForm.js:56-104 | every research-paper validation message is non-empty |
| ResearchPaperForm.HandleSubmit | src/components/ResearchPaperForm.js:118-153 | blocked with the errors iff not acceptable, else sends the converted payload; either way the shown errors become the validation result, `{}` when sent |
| ResearchPaperForm.ToPayload | src/components/ResearchPaperForm.js:128-144 | required texts sent as typed, optional ones null when empty, year parsed, pages and rating with 0 for a failed parse |
| ResearchPaperForm.SentYearInRange | src/components/ResearchPaperForm.js:65-84 | a sent paper always has a year in 1900..2100 and non-blank authors |
| ResearchPaperForm.SentCountsInRange | src/components/ResearchPaperForm.js:94-100 | a sent paper has pages in 0..10000 and rating in 0..5 |
| ResearchPaperForm.InitialYear | src/components/ResearchPaperForm.js:9 | a new paper starts with the current year, which passes validation iff it lies in 1900..2100 |
| ResearchPaperForm.PrefillRoundTrip | src/components/ResearchPaperForm.js:30-54 | editing and submitting unchanged sends the title and institution back, the authors as the comma-joined list, the year or the current year, the publication date without its time part |
| ResearchPaperForm.HandleChange | src/components/ResearchPaperForm.js:106-116 | a change sets only the edited input, keeps the featured box, hides only its error |
| ResearchPaperForm.SetChangesOnlyField | src/components/ResearchPaperForm.js:106-116 | writing one input leaves every other input and the featured box as they were |
| ResearchPaperForm.HandleCheck | src/components/ResearchPaperForm.js:110 | the featured checkbox takes the checked state and changes nothing else |
| Entities.TextListField | src/components/ResearchPaperForm.js:34 | an authors list prefills as the items joined by `, `, so containing every author; a plain string as itself; a missing one as empty |
| FormErrors.ClearedOnChange | src/components/BookForm.js:86-92 | clearing an error on change hides that input's error and leaves every other key and message alone |
| FormErrors.BlankedOnChange | src/components/ThesisForm.js:119-121 | blanking an error to `''` hides it and leaves every other key and message alone |
| FormErrors.SubmitFailure | src/components/BookForm.js:112-116 | a failed save shows only the submit error, with the thrown message or "Failed to submit form" |
| FormErrors.NotOutsideIntSent | src/components/ThesisForm.js:100-102 | a numeric input that passed the comparison test is sent by `parseInt(v) \|\| 0` within the same whole bounds |
| FormErrors.NotOutsideRealSent | src/components/ThesisForm.js:104-106 | a numeric input that passed the comparison test is sent by `parseFloat(v) \|\| 0` within the bounds |
| Numbers.ParseIntTruncatesNumber | src/components/ThesisForm.js:140 | on any string `Number` accepts, `parseInt(s) \|\| 0` is the truncation of `Number(s)`, so the sent value agrees with the validated one |
| Numbers.ParseInt | src/components/BookForm.js:66 | `parseInt`: a result exists exactly when, after leading white space and an optional sign, a digit follows; ParseIntOfIntToString and ParseIntOfIntToStringThen state that it reads a printed integer back |
| Numbers.ParseFloat | src/components/TextbookForm.js:89 | `parseFloat`: a result exists exactly when a decimal literal follows the leading white space; ParseFloatOfNumber states that it agrees with `Number` on numeric text |
| Numbers.ToNumber | src/components/ThesisForm.js:100-106 | `Number(s)`, the coercion of `formData.pages < 0`: blank text is 0, and other text must be one whole decimal literal; ParseIntTruncatesNumber relates it to `parseInt` |
| Numbers.ParseFloatOfNumber | src/components/ThesisForm.js:141 | on any string `Number` accepts, `parseFloat(s) \|\| 0` equals `Number(s)` |
| Numbers.ParseIntOfNumberAtLeastOne | src/components/ChapterForm.js:94 | a string whose `Number` is at least 1 parses with `parseInt` to an integer of at least 1 |
| Numbers.ParseIntOfIntToString | src/pages/ChaptersPage.js:31-33 | printing an integer and parsing it back gives the same integer |
| Numbers.ParseIntOfIntToStringThen | src/pages/ChaptersPage.js:31-33 | `parseInt` of a printed integer followed by a non-digit still gives the integer |
| Strings.BlankIffAllSpace | src/components/BookForm.js:37 | `value.trim() === ''` holds exactly when every character is white space |
| Strings.JoinKeepsItems | src/pages/NewsletterSubscriptionsPage.js:99 | every joined item occurs in the joined text |
| Strings.SplitJoin | src/pages/NewsletterSubscriptionsPage.js:99 | splitting a newline-joined list of lines without line breaks gives the lines back |
| Strings.PreviewBounded | src/pages/BooksPage.js:236-237 | a 100-unit preview is at most 103 code units and starts with the text's own first code units |
| Strings.Utf16LengthBounds | src/components/BookForm.js:39 | `.length` counts UTF-16 code units: at least the characters and at most twice as many; exactly the characters iff every character is within the Basic Multilingual Plane, and exactly twice iff every character lies above U+FFFF, as an emoji does |
| Strings.Utf16LengthIsEncodingLength | src/components/BookForm.js:39 | the length the caps compare, one per character and two above U+FFFF, is the number of UTF-16 code units the text encodes to |
| Strings.Utf16Append | src/components/BookForm.js:39 | the code units of a concatenation are the code units of the parts |
| Strings.Utf16PrefixOfBmp | src/pages/BooksPage.js:236 | within the Basic Multilingual Plane, the first n code units are the encoding of the first n characters |
| Strings.DatePartOfDateTime | src/components/ThesisForm.js:48-50 | `split('T')[0]` of an ISO date-time is its date |
| Search.SearchBySpec | src/pages/BooksPage.js:32-47 | an item is shown exactly when it is listed and the search is blank or matches its lowercased term; order is kept; a shown item appears exactly as many times as it is listed |
| Search.BlankSearchShowsAll | src/pages/BooksPage.js:34-35 | a search of white space only shows the whole list |
| BooksPage.FilteredSpec | src/pages/BooksPage.js:32-47 | a book is shown iff listed and its title, author or category contains the lowercased term (or the search is blank); order kept; a shown item appears exactly as many times as it is listed |
| BooksPage.Filtered | src/pages/BooksPage.js:32-47 | the search effect's list; FilteredSpec states which books it shows, how often and in what order |
| BooksPage.DescriptionPreview | src/pages/BooksPage.js:234-239 | a description line is shown iff the book has a non-empty description, cut to 100 code units plus `...` |
| BooksPage.DescriptionPreviewShape | src/pages/BooksPage.js:234-239 | the shown description is the whole text when it has at most 100 code units, else its first 100 code units then `...`; for text within the Basic Multilingual Plane, its first 100 characters then `...` |
| BooksPage.ChapterCount | src/pages/BooksPage.js:244 | the chapters column shows the book's count, 0 when absent |
| BooksPage.HandleSubmit | src/pages/BooksPage.js:90-107 | saving updates the edited book by id or creates a new one; success closes the modal, failure rethrows "Failed to save book" or the server's message |
| BooksPage.HandleDelete | src/pages/BooksPage.js:74-88 | a declined confirmation does nothing; a confirmed one calls delete with that book's id and reports its title or the error |
| TextbooksPage.FilteredSpec | src/pages/TextbooksPage.js:34-49 | a textbook is shown iff listed and its title, author, category, level or tags contain the lowercased term; order kept; a shown item appears exactly as many times as it is listed |
| TextbooksPage.Filtered | src/pages/TextbooksPage.js:34-49 | the search effect's list; FilteredSpec states which textbooks it shows, how often and in what order |
| TextbooksPage.LevelBadge | src/pages/TextbooksPage.js:246 | the level badge is primary exactly for `UG`, success otherwise |
| TextbooksPage.QueryOpensCreate | src/pages/TextbooksPage.js:24-31 | `?action=new` opens the form empty, so its save creates a textbook |
| TextbooksPage.HandleSubmit | src/pages/TextbooksPage.js:92-109 | saving updates the edited textbook or creates one; failure rethrows "Failed to save textbook" or the server's message |
| TextbooksPage.HandleDelete | src/pages/TextbooksPage.js:76-90 | a confirmed delete calls delete with that textbook's id and reports its title or the error |
| ThesisPage.FilteredSpec | src/pages/ThesisPage.js:24-40 | a thesis is shown iff listed and its title, author, institution or category contains the lowercased term; order kept; a shown item appears exactly as many times as it is listed |
| ThesisPage.Filtered | src/pages/ThesisPage.js:24-40 | the search effect's list; FilteredSpec states which theses it shows, how often and in what order |
| ThesisPage.CategoryBadge | src/pages/ThesisPage.js:124-137 | each of the four thesis categories has its own badge; anything else, missing included, is secondary |
| Badges.PublicationBadge | src/pages/ThesisPage.js:318-323 | published is success, under review is warning, anything else (missing included) secondary; the research-paper table uses the same rule |
| ThesisPage.Stats | src/pages/ThesisPage.js:186-207 | the total card counts every thesis, the featured card the theses flagged featured, the published card those with status `published` |
| ThesisPage.StatsOfOneMore | src/pages/ThesisPage.js:186-207 | one more thesis adds one to the total, one to featured iff flagged, one to published iff published, and its view count (0 when missing) to views |
| ThesisPage.ViewsCounted | src/pages/ThesisPage.js:202-206 | every thesis's views, 0 when missing, are included in the views card |
| ThesisPage.FeaturedCounted | src/pages/ThesisPage.js:190-195 | the featured card counts exactly the theses flagged featured |
| ThesisPage.HandleEdit | src/pages/ThesisPage.js:62-72 | edit opens the fetched full thesis, or shows "Failed to load thesis details" and keeps the modal |
| ThesisPage.HandlePreview | src/pages/ThesisPage.js:74-83 | preview shows the fetched full thesis, or the error, and never touches the modal |
| ThesisPage.HandleSubmit | src/pages/ThesisPage.js:101-118 | saving updates the edited thesis or creates one; failure rethrows "Failed to save thesis" or the server's message |
| ThesisPage.HandleDelete | src/pages/ThesisPage.js:85-99 | a confirmed delete calls delete with that thesis's id and reports its title or the error |
| ResearchPapersPage.FilterAsWrittenThrows | src/pages/ResearchPapersPage.js:25-40 | the search as written fails exactly when some paper with non-empty string authors reaches the authors test |
| ResearchPapersPage.MatchesAsWritten | src/pages/ResearchPapersPage.js:32-36 | the search predicate as written, which throws on non-empty string authors when the title does not match; FilterAsWrittenThrows states when |
| ResearchPapersPage.FilterAsWritten | src/pages/ResearchPapersPage.js:31-37 | `papers.filter(...)` with that predicate, aborted by the first throw; FilterAsWrittenThrows and CorrectedAgreesWhenNoThrow state its result |
| ResearchPapersPage.FilteredAsWritten | src/pages/ResearchPapersPage.js:25-40 | the search effect as written, blank term first; StringAuthorsBreakSearch exhibits the input on which it throws |
| ResearchPapersPage.StringAuthorsBreakSearch | src/pages/ResearchPapersPage.js:34 | a paper whose authors is the string "Sharma", searched for "sharma", makes the search as written throw, while the corrected search shows it |
| ResearchPapersPage.FilteredSpec | src/pages/ResearchPapersPage.js:25-40 | corrected search: a paper is shown iff listed and its title, any author (list or string), institution or category contains the term; order kept; a shown item appears exactly as many times as it is listed |
| ResearchPapersPage.Filtered | src/pages/ResearchPapersPage.js:25-40 | the corrected search; FilteredSpec states which papers it shows, how often and in what order |
| ResearchPapersPage.CorrectedAgreesWhenNoThrow | src/pages/ResearchPapersPage.js:25-40 | whenever the search as written does not throw, it shows the same papers as the corrected one |
| ResearchPapersPage.CategoryBadge | src/pages/ResearchPapersPage.js:124-137 | each of the four paper categories has its own badge; anything else is secondary |
| ResearchPapersPage.CategoryLabel | src/pages/ResearchPapersPage.js:307 | the category label has the category's length |
| ResearchPapersPage.CategoryLabelSpec | src/pages/ResearchPapersPage.js:307 | `replace('-', ' ')` turns only the first hyphen into a space and keeps every other character |
| ResearchPapersPage.AuthorsCellOf | src/pages/ResearchPapersPage.js:296-301 | an authors list shows its first two joined by `, ` plus `+n` for the other n; a string shows itself |
| ResearchPapersPage.AuthorsCellAccountsForAll | src/pages/ResearchPapersPage.js:296-301 | the shown authors and the `+n` count together account for every author |
| ResearchPapersPage.Stats | src/pages/ResearchPapersPage.js:185-207 | the total card counts every paper, the featured card the papers flagged featured, the published card those with status `published` |
| ResearchPapersPage.StatsOfOneMore | src/pages/ResearchPapersPage.js:185-207 | one more paper adds one to the total, one to featured iff flagged, one to published iff published, and its view count (0 when missing) to views |
| ResearchPapersPage.ViewsCounted | src/pages/ResearchPapersPage.js:203-206 | every paper's views, 0 when missing, are included in the views card |
| ResearchPapersPage.HandleEdit | src/pages/ResearchPapersPage.js:62-72 | edit opens the fetched paper, or shows the error and keeps the modal |
| ResearchPapersPage.HandlePreview | src/pages/ResearchPapersPage.js:74-83 | preview shows the fetched paper or the error, and never touches the modal |
| ResearchPapersPage.HandleSubmit | src/pages/ResearchPapersPage.js:101-118 | saving updates the edited paper or creates one; failure rethrows "Failed to save research paper" or the server's message |
| ResearchPapersPage.HandleDelete | src/pages/ResearchPapersPage.js:85-99 | a confirmed delete calls delete with that paper's id and reports its title or the error |
| StatsCards.CardsOf | src/pages/ThesisPage.js:186-207 | the total card counts every item, the featured and published cards count the items the filters keep, never more than the total |
| StatsCards.CardsOfOne | src/pages/ThesisPage.js:186-207 | one record contributes one to the total, one to featured or published only when it is so, and its own views |
| StatsCards.CardsOfAppend | src/pages/ThesisPage.js:186-207 | the cards of a list are the card-by-card sums of the cards of its parts |
| StatsCards.ViewsCounted | src/pages/ThesisPage.js:202-206 | each item's views are included in the views card |
| ContactSubmissionsPage.FilteredSpec | src/pages/ContactSubmissionsPage.js:24-51 | a submission is shown iff listed, of the chosen status and type (or `all`), and matching the search in name, email, subject, organization or message; order kept; a shown item appears exactly as many times as it is listed |
| ContactSubmissionsPage.Filtered | src/pages/ContactSubmissionsPage.js:24-51 | the status, type and search filters in sequence; FilteredIsOneFilter and FilteredSpec state what it shows |
| ContactSubmissionsPage.FilteredIsOneFilter | src/pages/ContactSubmissionsPage.js:24-51 | the three successive filters equal one filter by all three conditions |
| ContactSubmissionsPage.DropdownNarrows | src/pages/ContactSubmissionsPage.js:27-35 | choosing a status or a type only removes rows from what `all` shows |
| ContactSubmissionsPage.StatusBadge | src/pages/ContactSubmissionsPage.js:124-137 | each of the four workflow statuses has its own badge, and the default badge is used exactly for any other status |
| ContactSubmissionsPage.StatsOf | src/pages/ContactSubmissionsPage.js:226-250 | the total card counts every submission; the pending, in-progress and resolved cards count the submissions of that status, together never more than the total |
| ContactSubmissionsPage.CardsMatchFilters | src/pages/ContactSubmissionsPage.js:226-250 | each status card equals the number of rows that status filter shows with an empty search |
| ContactSubmissionsPage.HandleFetch | src/pages/ContactSubmissionsPage.js:53-66 | a load replaces the list and clears the error; a failure keeps the list and shows the error |
| ContactSubmissionsPage.HandlePreview | src/pages/ContactSubmissionsPage.js:68-76 | preview shows the fetched submission or "Failed to load submission details" |
| ContactSubmissionsPage.HandleDelete | src/pages/ContactSubmissionsPage.js:78-92 | a confirmed delete calls delete with that submission's id and names the sender, or shows the error |
| ContactSubmissionsPage.HandleUpdateStatus | src/pages/ContactSubmissionsPage.js:94-107 | the status patch names the submission and new status; success updates the previewed copy when it is that submission; failure changes only the error |
| ContactSubmissionsPage.PreviewControlUpdatesPreview | src/pages/ContactSubmissionsPage.js:94-107 | changing the status from the preview shows the previewed submission with the new status and its badge |
| NewsletterPage.FilteredSpec | src/pages/NewsletterSubscriptionsPage.js:20-40 | a subscription is shown iff listed, passing the active/inactive dropdown, and its email matches the search; order kept; a shown item appears exactly as many times as it is listed |
| NewsletterPage.Filtered | src/pages/NewsletterSubscriptionsPage.js:20-40 | the status dropdown then the email search; FilteredSpec states what it shows |
| NewsletterPage.StatusViewsPartition | src/pages/NewsletterSubscriptionsPage.js:24-29 | the active and inactive views together hold every subscription exactly once |
| NewsletterPage.StatsOf | src/pages/NewsletterSubscriptionsPage.js:187-215 | the active and unsubscribed cards count the rows the `active` and `inactive` views show and add up to the total; this month counts the subscriptions the month test keeps |
| NewsletterPage.StatusBadge | src/pages/NewsletterSubscriptionsPage.js:249-261 | active subscriptions get the success badge and all others the secondary one |
| NewsletterPage.OrNotAvailable | src/pages/NewsletterSubscriptionsPage.js:263 | a missing or empty source shows `N/A`, any other shows itself |
| NewsletterPage.CsvRow | src/pages/NewsletterSubscriptionsPage.js:92-98 | an exported row has the five header columns: email, Active/Inactive, rendered dates, source or `N/A` |
| NewsletterPage.CsvLines | src/pages/NewsletterSubscriptionsPage.js:90-99 | the export has the header line then one line per shown subscription, in order |
| NewsletterPage.ExportKeepsEmails | src/pages/NewsletterSubscriptionsPage.js:89-99 | every shown subscription's email appears in the exported file |
| NewsletterPage.Export | src/pages/NewsletterSubscriptionsPage.js:89-99 | `handleExportToCSV`'s file over the filtered rows; ExportLines states its lines and ExportKeepsEmails the emails it carries |
| NewsletterPage.ExportLines | src/pages/NewsletterSubscriptionsPage.js:89-99 | while no cell holds a line break, splitting the file into lines gives back the header and the shown rows, one per line |
| NewsletterPage.RowActions | src/pages/NewsletterSubscriptionsPage.js:283-291 | unsubscribe is offered exactly for active subscriptions; delete always |
| NewsletterPage.HandleFetch | src/pages/NewsletterSubscriptionsPage.js:42-55 | a load replaces the list and clears the error; a failure keeps the list and shows the error |
| NewsletterPage.HandleUnsubscribe | src/pages/NewsletterSubscriptionsPage.js:57-71 | a confirmed unsubscribe calls with that id and names the email, or shows "Failed to unsubscribe"; a declined one does nothing |
| NewsletterPage.HandleDelete | src/pages/NewsletterSubscriptionsPage.js:73-87 | a confirmed delete calls with that id and names the email, or shows the error; a declined one does nothing |
| Crud.Initial | src/pages/BooksPage.js:12-21 | a page starts with no items, closed modal, nothing edited, no error |
| Crud.AddNew | src/pages/BooksPage.js:64-67 | add opens the modal with nothing edited and changes nothing else |
| Crud.Edit | src/pages/BooksPage.js:69-72 | edit opens the modal on that record and changes nothing else |
| Crud.EditFetched | src/pages/ThesisPage.js:62-72 | an edit that fetches the full record opens it, or shows the error and changes nothing else |
| Crud.PreviewFetched | src/pages/ThesisPage.js:74-83 | a preview shows the fetched record, or the error, and keeps the modal and list |
| Crud.Cancel | src/pages/BooksPage.js:109-112 | cancel closes the modal and forgets the edited record, changing nothing else |
| Crud.OnQuery | src/pages/BooksPage.js:22-30 | `?action=new` opens the empty form; any other query leaves the page alone |
| Crud.AfterFetch | src/pages/BooksPage.js:49-62 | a load replaces the list and clears the error; a failure keeps the list and shows the message or the fallback |
| Crud.SaveCall | src/pages/BooksPage.js:90-98 | save is an update of the edited record's id iff a record is being edited, else a create, carrying the form's data |
| Crud.AfterSave | src/pages/BooksPage.js:90-107 | a successful save closes the modal and announces created or updated with the title; a failed one rethrows the message or fallback |
| Crud.RethrownShownByForm | src/pages/BooksPage.js:104-106 | the rethrown save error reaches the form's submit entry as a non-empty message |
| Crud.ConfirmedCall | src/pages/BooksPage.js:74-81 | a delete call is issued iff confirmed, and with that record's id |
| Crud.AfterDelete | src/pages/BooksPage.js:80-88 | a successful delete announces the title; a failed one shows the message or fallback |
| Crud.NoStaleEdit | src/pages/BooksPage.js:64-72 | after cancel or add, the next save creates; after edit, it updates the edited id |
| Crud.SettledSaveCreatesNext | src/pages/BooksPage.js:90-107 | after a successful update, the next save without a new edit creates |
| ChapterPages.Initial | src/pages/ChaptersPage.js:9-22 | the selection starts as the route's parent id, or empty |
| ChapterPages.AutoSelect | src/pages/ChaptersPage.js:30-33 | with nothing selected, the first parent's id is selected; a selection is never replaced |
| ChapterPages.AfterParents | src/pages/ChaptersPage.js:24-40 | a parents load records them and auto-selects; a failure shows "Failed to load books" or "…textbooks" |
| ChapterPages.ChapterFetch | src/pages/ChaptersPage.js:60-64 | chapters are fetched iff a parent is selected, for that parent |
| ChapterPages.FirstParentFetched | src/pages/ChaptersPage.js:30-33 | with nothing selected, the chapters fetched are those of the first parent, whose printed id reads back as that id |
| ChapterPages.SelectionKept | src/pages/ChaptersPage.js:30-33 | an existing selection survives any parents load |
| ChapterPages.AfterChapters | src/pages/ChaptersPage.js:42-54 | a chapters load shows that parent and clears the error; a failure shows "Failed to load chapters" and keeps the selection |
| ChapterPages.ChangeParent | src/pages/ChaptersPage.js:66-70 | choosing a parent selects it, forgets the shown parent and fetches its chapters unless the choice is empty |
| ChapterPages.AddNew | src/pages/ChaptersPage.js:72-79 | with no parent selected, add alerts "Please select a book/textbook first" and changes nothing; otherwise it opens the empty form |
| ChapterPages.HandleEdit | src/pages/ChaptersPage.js:81-91 | edit opens the fetched chapter, or shows "Failed to load chapter details"; the selection is kept |
| ChapterPages.HandlePreview | src/pages/ChaptersPage.js:109-118 | preview shows the fetched chapter or "Failed to load chapter for preview" and keeps the modal |
| ChapterPages.HandleSubmit | src/pages/ChaptersPage.js:120-137 | saving updates the edited chapter or creates one under the selected parent; failure rethrows "Failed to save chapter" |
| ChapterPages.CreatedUnderSelection | src/pages/ChaptersPage.js:72-79 | a form opened by add always creates under a non-empty selected parent |
| ChapterPages.NumberJsonRoundTrip | src/components/ChapterForm.js:94-97 | a number sent in the body reads back as the parsed number, and `null` exactly for a missing one |
| ChapterPages.NumberJson | src/components/ChapterForm.js:94-97 | a parsed number as JSON, `NaN` as `null`; NumberJsonRoundTrip states that it reads back |
| ChapterPages.PayloadJson | src/components/ChapterForm.js:92-98 | the chapter payload as the JSON body; PayloadJsonReadsBack states its keys and what each reads back as |
| ChapterPages.PayloadJsonReadsBack | src/components/ChapterForm.js:92-98 | the body has exactly the eight payload properties, each reading back as the form produced it |
| ChapterPages.SentChapterNumberJson | src/components/ChapterForm.js:38-42 | a sent chapter form puts a whole chapter number of at least 1 into the body |
| ChapterPages.SubmitRequest | src/pages/ChaptersPage.js:120-137 | on the books page the save POSTs to `/Chapters` with the selected parent's id and the title, or PUTs to the edited chapter's path; the textbooks page issues no request the service defines |
| ChapterPages.SaveRequest | src/pages/ChaptersPage.js:120-137 | the service call of a save, none on the textbooks page; SubmitRequest states the request each submit issues |
| ChapterPages.HandleDelete | src/pages/ChaptersPage.js:93-107 | a confirmed delete calls delete with that chapter's id and names it, or shows "Failed to delete chapter"; the selection is kept |
| ChapterPages.ChapterCount | src/pages/ChaptersPage.js:213 | the header count is the number of chapters, 0 when the list is missing |
| ChapterPages.EmptyStateIffNoChapters | src/pages/ChaptersPage.js:222 | the empty state is shown exactly when the count is 0 |
| ChapterPages.Rows | src/pages/ChaptersPage.js:250-253 | the table has one row per chapter |
| ChapterPages.RowsSpec | src/pages/ChaptersPage.js:250-253 | rows are sorted by chapter number, a permutation of the chapters, and chapters with equal numbers keep their order |
| ChapterPages.SummaryPreview | src/pages/ChaptersPage.js:257-262 | a summary line is shown iff the chapter has a non-empty summary, cut to 100 code units plus `...` |
| ChapterPages.SummaryPreviewShape | src/pages/ChaptersPage.js:257-262 | the shown summary is the whole text when it has at most 100 code units, else its first 100 code units then `...`; for text within the Basic Multilingual Plane, its first 100 characters then `...` |
| ChapterPages.WordCountCell | src/pages/ChaptersPage.js:265 | the word count cell is `-` exactly when the count is missing or 0 |
| ChapterPages.ReadingTimeCell | src/pages/ChaptersPage.js:266 | the reading time cell is `-` exactly when the time is missing or 0 |
| ChapterPages.CellsReadBack | src/pages/ChaptersPage.js:265-266 | a number shown in the word count or reading time cell reads back as the chapter's value |
| ChapterPages.SubtitleCellMatchesPreview | src/pages/ChaptersPage.js:264-336 | the subtitle cell is never empty: it shows the subtitle the preview heading shows, and `-` exactly when the preview has none or the subtitle is `-` |
| ChapterPages.SubtitleCell | src/pages/ChaptersPage.js:264 | `chapterSubtitle \|\| '-'`: a present non-empty subtitle is shown, otherwise `-`; SubtitleCellMatchesPreview relates it to the preview |
| Dashboard.TotalChapters | src/pages/Dashboard.js:29-32 | the `forEach` accumulation equals the sum of every book's chapter count |
| Dashboard.Load | src/pages/Dashboard.js:20-49 | the dashboard fails iff the fetch fails, with "Failed to load dashboard data" as fallback; otherwise it shows the book count, the chapter sum and the first five books |
| Dashboard.RecentIsPrefix | src/pages/Dashboard.js:39-40 | the recent table holds the first min(5, n) books in order, each counted in the cards |
| Dashboard.AnotherBook | src/pages/Dashboard.js:29-36 | one more book adds one to the book card and exactly its chapters to the chapter card |
| Dashboard.UncountedBookAddsNothing | src/pages/Dashboard.js:31 | a book without a chapter count leaves the chapter card unchanged |
| Api.Unwrap | src/services/api.js:14-21 | unwrapping keeps the status and headers |
| Api.IsEnvelope | src/services/api.js:17 | `response.data && response.data.data !== undefined`; UnwrapSpec and UnwrapOfEnvelope state what unwrapping an envelope gives |
| Api.UnwrapSpec | src/services/api.js:14-21 | a body that is an object with a `data` property is replaced by that property, `null` included; any other body passes unchanged |
| Api.UnwrapOfEnvelope | src/services/api.js:14-21 | wrapping any value in `{ data: ... }` and unwrapping gives it back |
| Api.UnwrapsOnce | src/services/api.js:14-21 | a doubly wrapped value comes out wrapped once |
| Api.ServerMessage | src/services/api.js:22-26 | the server message exists iff the error has a response whose body is an object with `message` |
| Api.ReasonOf | src/services/api.js:22-26 | the rejected message is the server's if truthy, else the error's own if non-empty, else "An error occurred" |
| Api.PageFallbackUnused | src/services/api.js:22-26 | for a string or absent server message, the rejected error's message is never empty, so a page's own fallback never shows for it; the fallback shows exactly when the server's message is a truthy non-string whose `String(...)` is empty |
| Api.ErrorText | src/services/api.js:24-25 | the message of `new Error(message)` for each link of the chain; PageFallbackUnused states when it is empty |
| Api.EmptyArrayMessageShowsFallback | src/services/api.js:22-26 | a server answering `{ message: [] }` has its empty array chosen as the message, and the page's own fallback is what shows |
| Api.WithBookId | src/services/api.js:112-119 | the chapter body gains `bookId` and keeps every other field |
| Api.CreateChapterBody | src/services/api.js:112-119 | creating a chapter POSTs to `/Chapters` a body carrying the parent id and the other fields unchanged |
| Api.GetAllBooks | src/services/api.js:37-40 | `GET /Books` with no body |
| Api.GetBookById | src/services/api.js:47-50 | `GET /Books/<id>`; BookPathsAddressOneBook states that the path names one book |
| Api.CreateBook | src/services/api.js:57-60 | `POST /Books` with the book data as the body |
| Api.UpdateBook | src/services/api.js:68-71 | `PUT /Books/<id>` with the book data; BookPathsAddressOneBook states the shared path |
| Api.DeleteBook | src/services/api.js:78-80 | `DELETE /Books/<id>` with no body; BookPathsAddressOneBook states the shared path |
| Api.GetBookWithChapters | src/services/api.js:87-90 | `GET /Books/<id>/chapters`; ChapterPages.FirstParentFetched states which parent it fetches |
| Api.GetChapterById | src/services/api.js:101-104 | `GET /Chapters/<id>`; ChapterPathsAddressOneChapter states that the path names one chapter |
| Api.CreateChapter | src/services/api.js:112-119 | `POST /Chapters` with the data and `bookId`; CreateChapterBody states the body |
| Api.UpdateChapter | src/services/api.js:127-130 | `PUT /Chapters/<id>` with the data; ChapterPathsAddressOneChapter states the shared path |
| Api.DeleteChapter | src/services/api.js:137-139 | `DELETE /Chapters/<id>` with no body; ChapterPathsAddressOneChapter states the shared path |
| Api.IdText | src/services/api.js:47-50 | an id printed into a path reads back as that id |
| Api.BookPathsAddressOneBook | src/services/api.js:47-80 | get, update and delete of a book share the path `/Books/<id>`, and distinct ids give distinct paths |
| Api.ChapterPathsAddressOneChapter | src/services/api.js:101-139 | get, update and delete of a chapter share the path `/Chapters/<id>`, and distinct ids give distinct paths |

## Left out

- Rendering is not modelled: JSX layout, icons, option labels, the HTML preview of chapter and thesis content, and date formatting.
- HTTP and axios are left out. Each backend call is a given outcome, success with a value or failure with a message. The order in which overlapping re-fetches settle is not modelled.
- `window.confirm` and `alert` are not modelled as dialogs. Confirmation is a boolean parameter, and an alert is a returned message.
- Success banners are modelled as a `Notice` naming the record. The model does not cover their exact wording or the `setTimeout` that clears them after three seconds.
- The CSV download itself (Blob, object URL, file name with today's date) is left out. The file's text is modelled.
- `toLocaleString()` depends on the browser's locale and time zone, so the CSV's dates are a `render` parameter. The newsletter "this month" card's test of the current month is a parameter too.
- NewsletterPage.ExportLines: holds only while no cell contains a line break. The export does no CSV quoting (RFC 4180 section 2), so a comma or line break in a cell corrupts the file. The model keeps the unquoted output.
- Lengths (`.length`, `substring`) are counted in UTF-16 code units through `Strings.Utf16`. A Dafny string cannot hold a lone surrogate, so text containing one is not modelled.
- `toLowerCase` and `trim` are modelled on ASCII letters and on ASCII white space plus no-break space and byte-order mark. Full Unicode case mapping and white space are left out.
- `parseInt`, `parseFloat` and `Number` are modelled on decimal text. Hexadecimal, exponents and `Infinity` are left out.
- ThesisForm.SentCountsInRange, ResearchPaperForm.SentCountsInRange, ChapterForm.SentChapterNumberPositive and ChapterPages.SentChapterNumberJson require the input to be numeric text. The inputs are `type="number"`, so the browser delivers nothing else. For other text, a comparison against `NaN` passes validation and `parseInt` may still read a leading number.
- Api.ErrorText: a server `message` that is not a string is converted by `String(...)`, which is a parameter, not modelled.
- `api.js` defines only the book and chapter endpoints, yet the textbook, thesis, research-paper, contact and newsletter pages call other service functions. Those calls are modelled as outcomes that are given.
- The list pages call their fetch again after a successful save, delete, unsubscribe or status change. That re-fetch is not part of the handlers' results; its outcome reaches the page through the same load transition as the first load (`Crud.AfterFetch` and the pages' `HandleFetch`), so a deleted record leaves the table only once that load returns.
- ChapterPages.SaveRequest: the textbook chapter page calls `createTextbookChapter`, `updateTextbookChapter`, `getTextbookChapterById` and `deleteTextbookChapter`, which `api.js` does not define. The model gives that page no request; its outcomes are given like the other undefined service calls.
- TextbookChaptersPage imports a `TextbookChapterForm` that is not part of this model. The textbook chapter page is modelled with ChapterForm's payload.
- The forms' unused `bookId` prop and the textbook form's `isActive` null-versus-undefined distinction are left out. A missing `isActive` counts as active, like `undefined`.
- A research paper with a missing category is not modelled. `paper.category.replace` would throw while rendering, so CategoryLabel takes the category as present.
- Loading spinners (`loading` state) and the chapter pages' re-fetch of the parent list when the selection changes are left out.
- Route navigation (`navigate` to a chapter page, back to the list) is left out.

## Findings

| source | as written | input that shows it | evidently intended | confidence | as-written member | corrected member |
|---|---|---|---|---|---|---|
| src/pages/ResearchPapersPage.js:34 | `paper.authors && paper.authors.some(...)` assumes `authors` is an array. The form and the authors cell also accept a plain string. | A paper whose `authors` is the string `"Sharma"` and whose title does not match, searched for `sharma`: `"Sharma".some` is not a function, so the search effect throws; where the page is mounted, no error boundary catches it and React unmounts the whole tree. `src/App.js:53-58` routes only the Dashboard, Books and Chapters pages, so the routed console does not reach it. | Search the authors as a list when it is one, or as text when it is a string. | not executed | ResearchPapersPage.StringAuthorsBreakSearch | ResearchPapersPage.FilteredSpec |
