/**
 * The records the console receives from the backend. Text the backend always sends is a
 * `string`; a field that may be `null` or missing is an `Option`.
 */
module Entities {
  import opened Optional
  import opened Strings

  /** A field the backend sends either as an array of strings or as one comma-separated string. */
  datatype TextList = Missing | Text(text: string) | Items(items: seq<string>)

  /**
   * The edit-form text of such a field:
   * `Array.isArray(x) ? x.join(', ') : x || ''`.
   */
  function TextListField(t: TextList): (r: string)
    ensures t.Text? ==> r == t.text
    ensures t.Missing? ==> r == ""
    ensures t.Items? ==> r == Join(t.items, ", ")
    ensures t.Items? ==> forall k :: 0 <= k < |t.items| ==> Contains(r, t.items[k])
  {
    match t
    case Missing => ""
    case Text(s) => s
    case Items(xs) =>
      var r := Join(xs, ", ");
      assert forall k :: 0 <= k < |xs| ==> Contains(r, xs[k]) by {
        forall k | 0 <= k < |xs| ensures Contains(r, xs[k]) {
          JoinKeepsItems(xs, ", ", k);
        }
      }
      r
  }

  datatype Book = Book(
    id: int,
    title: string,
    author: string,
    description: Option<string>,
    coverImageUrl: Option<string>,
    category: Option<string>,
    language: Option<string>,
    publicationYear: Option<int>,
    isbn: Option<string>,
    totalChapters: Option<nat>)

  datatype Textbook = Textbook(
    id: int,
    title: string,
    author: string,
    description: Option<string>,
    coverImageUrl: Option<string>,
    category: Option<string>,
    language: Option<string>,
    publicationYear: Option<int>,
    isbn: Option<string>,
    rating: Option<real>,
    status: Option<string>,
    tags: Option<string>,
    level: Option<string>,
    year: Option<string>,
    pageCount: Option<int>,
    totalChapters: Option<nat>,
    isActive: Option<bool>)

  /** A chapter of a book or of a textbook (both pages show the same columns). */
  datatype Chapter = Chapter(
    id: int,
    chapterNumber: int,
    chapterTitle: string,
    chapterSubtitle: Option<string>,
    contentHtml: Option<string>,
    summary: Option<string>,
    wordCount: Option<int>,
    readingTimeMinutes: Option<int>,
    displayOrder: Option<int>)

  /** `abstractText` is the backend's `abstract` field (`abstract` is a Dafny keyword). */
  datatype Thesis = Thesis(
    id: int,
    title: string,
    author: string,
    guideNames: TextList,
    institution: string,
    department: Option<string>,
    year: Option<int>,
    category: Option<string>,
    thesisType: Option<string>,
    abstractText: Option<string>,
    contentHtml: Option<string>,
    keywords: TextList,
    pages: Option<int>,
    submissionDate: Option<string>,
    approvalDate: Option<string>,
    defenseDate: Option<string>,
    grade: Option<string>,
    pdfUrl: Option<string>,
    coverImageUrl: Option<string>,
    universityRegistrationNumber: Option<string>,
    rating: Option<real>,
    status: Option<string>,
    isFeatured: Option<bool>,
    viewCount: Option<nat>)

  datatype ResearchPaper = ResearchPaper(
    id: int,
    title: string,
    authors: TextList,
    institution: string,
    year: Option<int>,
    category: Option<string>,
    abstractText: Option<string>,
    contentHtml: Option<string>,
    keywords: TextList,
    pages: Option<int>,
    doi: Option<string>,
    journalName: Option<string>,
    volume: Option<string>,
    issueNumber: Option<string>,
    publicationDate: Option<string>,
    pdfUrl: Option<string>,
    coverImageUrl: Option<string>,
    rating: Option<real>,
    status: Option<string>,
    isFeatured: Option<bool>,
    viewCount: Option<nat>)

  datatype ContactSubmission = ContactSubmission(
    id: int,
    name: string,
    email: string,
    subject: string,
    message: string,
    organization: Option<string>,
    status: string,
    contactType: string)

  /** Dates stay opaque strings: their locale rendering is not modelled. */
  datatype NewsletterSubscription = NewsletterSubscription(
    id: int,
    email: string,
    isActive: bool,
    subscribedAt: string,
    source: Option<string>,
    unsubscribedAt: Option<string>)
}
