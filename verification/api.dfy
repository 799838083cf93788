/**
 * The API service: the response interceptor that unwraps the backend's `{ data: ... }`
 * envelope, the error-message chain of its error handler, and the requests the book and
 * chapter endpoints issue. HTTP itself is not modelled: a request is a value, and a
 * response or error is given.
 */
module Api {
  import opened Optional
  import opened Numbers

  /** A JSON value as the backend sends it. */
  datatype Json =
    | JNull
    | JBool(b: bool)
    | JNum(n: real)
    | JStr(s: string)
    | JArr(items: seq<Json>)
    | JObj(fields: map<string, Json>)

  /** JavaScript truthiness of a parsed JSON value (JSON has no `NaN`). */
  predicate Truthy(j: Json) {
    match j
    case JNull => false
    case JBool(b) => b
    case JNum(n) => n != 0.0
    case JStr(s) => s != ""
    case _ => true
  }

  /** `j.name`: a property of an object; every other JSON value has no such own property. */
  function Property(j: Json, name: string): (r: Option<Json>)
    ensures r.Some? <==> j.JObj? && name in j.fields
    ensures r.Some? ==> r.value == j.fields[name]
  {
    if j.JObj? && name in j.fields then Some(j.fields[name]) else None
  }

  /** An HTTP response as the client sees it: status, headers and the parsed body. */
  datatype Response = Response(status: int, headers: map<string, string>, data: Json)

  /** The body is the backend's wrapper: a truthy value with a `data` property (`null` counts). */
  predicate IsEnvelope(body: Json) {
    Truthy(body) && Property(body, "data").Some?
  }

  /** The success handler of the response interceptor. */
  function Unwrap(r: Response): (u: Response)
    ensures u.status == r.status && u.headers == r.headers
  {
    if IsEnvelope(r.data) then r.(data := r.data.fields["data"]) else r
  }

  /**
   * An envelope is replaced by its `data` field, even when that field is `null`; any other
   * body is returned unchanged.
   */
  lemma UnwrapSpec(r: Response)
    ensures IsEnvelope(r.data) ==> Unwrap(r).data == r.data.fields["data"]
    ensures !IsEnvelope(r.data) ==> Unwrap(r) == r
    ensures IsEnvelope(r.data) <==> r.data.JObj? && "data" in r.data.fields
  {
  }

  /** Wrapping any value, `null` included, in an envelope and unwrapping it gives the value back. */
  lemma UnwrapOfEnvelope(r: Response, inner: Json, others: map<string, Json>)
    ensures Unwrap(r.(data := JObj(others["data" := inner]))) == r.(data := inner)
  {
    assert Property(JObj(others["data" := inner]), "data") == Some(inner);
  }

  /** The interceptor removes one envelope only: a doubly wrapped value comes out wrapped once. */
  lemma UnwrapsOnce(r: Response, inner: Json)
    ensures Unwrap(r.(data := JObj(map["data" := JObj(map["data" := inner])]))).data == JObj(map["data" := inner])
  {
    UnwrapOfEnvelope(r, JObj(map["data" := inner]), map[]);
    assert map[]["data" := JObj(map["data" := inner])] == map["data" := JObj(map["data" := inner])];
  }

  /** A failed request: the response, if the server answered, and the error's own message. */
  datatype ApiError = ApiError(response: Option<Response>, message: string)

  /** `error.response?.data?.message`. */
  function ServerMessage(e: ApiError): (m: Option<Json>)
    ensures m.Some? <==> e.response.Some? && e.response.value.data.JObj? && "message" in e.response.value.data.fields
  {
    if e.response.Some? then Property(e.response.value.data, "message") else None
  }

  /** Which link of the message chain supplies the rejected error's message. */
  datatype Reason = FromServer(value: Json) | FromError(text: string) | Generic

  /** `error.response?.data?.message || error.message || 'An error occurred'`. */
  function ReasonOf(e: ApiError): (r: Reason)
    ensures r.FromServer? <==> ServerMessage(e).Some? && Truthy(ServerMessage(e).value)
    ensures r.FromServer? ==> r.value == ServerMessage(e).value
    ensures r.FromError? <==> !(ServerMessage(e).Some? && Truthy(ServerMessage(e).value)) && e.message != ""
    ensures r.FromError? ==> r.text == e.message
    ensures r.Generic? <==> !(ServerMessage(e).Some? && Truthy(ServerMessage(e).value)) && e.message == ""
  {
    var server := ServerMessage(e);
    if server.Some? && Truthy(server.value) then FromServer(server.value)
    else if e.message != "" then FromError(e.message)
    else Generic
  }

  /**
   * The message of `new Error(message)`. A server message that is not a string is converted
   * by `String(...)`, which `str` stands for.
   */
  function ErrorText(r: Reason, str: Json -> string): string {
    match r
    case FromServer(JStr(s)) => s
    case FromServer(j) => str(j)
    case FromError(t) => t
    case Generic => "An error occurred"
  }

  /**
   * Unless the server sends a non-string message, the rejected error's message is never
   * empty, so a page's own `err.message || 'Failed to ...'` fallback never shows for it.
   * It shows exactly when the server's message is a truthy non-string whose `String(...)`
   * is empty.
   */
  lemma PageFallbackUnused(e: ApiError, str: Json -> string, fallback: string)
    ensures (ReasonOf(e).FromServer? ==> ReasonOf(e).value.JStr?) ==> ErrorText(ReasonOf(e), str) != ""
    ensures ErrorText(ReasonOf(e), str) == "" <==>
      ReasonOf(e).FromServer? && !ReasonOf(e).value.JStr? && str(ReasonOf(e).value) == ""
    ensures TextOr(Some(ErrorText(ReasonOf(e), str)), fallback)
      == if ErrorText(ReasonOf(e), str) == "" then fallback else ErrorText(ReasonOf(e), str)
  {
  }

  /**
   * A server that answers `{ message: [] }`: the empty array is truthy, so it is chosen, and
   * `new Error([])` has the empty message, so the page's own fallback is what shows.
   */
  lemma EmptyArrayMessageShowsFallback(status: int, str: Json -> string, message: string, fallback: string)
    requires str(JArr([])) == ""
    ensures var e := ApiError(Some(Response(status, map[], JObj(map["message" := JArr([])]))), message);
      ReasonOf(e) == FromServer(JArr([])) && TextOr(Some(ErrorText(ReasonOf(e), str)), fallback) == fallback
  {
    var e := ApiError(Some(Response(status, map[], JObj(map["message" := JArr([])]))), message);
    assert ServerMessage(e) == Some(JArr([]));
  }

  /** The HTTP verbs the service uses. */
  datatype Verb = Get | Post | Put | Delete

  /** A request relative to the base URL, with its JSON body if any. */
  datatype Request = Request(verb: Verb, path: string, body: Option<Json>)

  function GetAllBooks(): Request {
    Request(Get, "/Books", None)
  }

  /** `${id}` in a path: the pages pass numeric ids, or the selector's string. */
  function GetBookById(id: string): Request {
    Request(Get, "/Books/" + id, None)
  }

  function CreateBook(data: Json): Request {
    Request(Post, "/Books", Some(data))
  }

  function UpdateBook(id: string, data: Json): Request {
    Request(Put, "/Books/" + id, Some(data))
  }

  function DeleteBook(id: string): Request {
    Request(Delete, "/Books/" + id, None)
  }

  function GetBookWithChapters(id: string): Request {
    Request(Get, "/Books/" + id + "/chapters", None)
  }

  function GetChapterById(id: string): Request {
    Request(Get, "/Chapters/" + id, None)
  }

  /** `{ ...chapterData, bookId }`: the chapter data with `bookId` added, or overwritten. */
  function WithBookId(chapterData: map<string, Json>, bookId: string): (body: map<string, Json>)
    ensures body.Keys == chapterData.Keys + {"bookId"}
    ensures body["bookId"] == JStr(bookId)
    ensures forall k :: k in chapterData && k != "bookId" ==> body[k] == chapterData[k]
  {
    chapterData["bookId" := JStr(bookId)]
  }

  function CreateChapter(bookId: string, chapterData: map<string, Json>): Request {
    Request(Post, "/Chapters", Some(JObj(WithBookId(chapterData, bookId))))
  }

  function UpdateChapter(id: string, data: Json): Request {
    Request(Put, "/Chapters/" + id, Some(data))
  }

  function DeleteChapter(id: string): Request {
    Request(Delete, "/Chapters/" + id, None)
  }

  /** The id a numeric record contributes to a path. */
  function IdText(id: int): (t: string)
    ensures ParseInt(t) == Some(id)
  {
    ParseIntOfIntToString(id);
    IntToString(id)
  }

  /**
   * The book item endpoints address the book whose id is printed after `/Books/`: the
   * path reads back as that id, so distinct books get distinct paths, and reads, updates
   * and deletes of one book share one path.
   */
  lemma BookPathsAddressOneBook(a: int, b: int, data: Json)
    ensures var p := GetBookById(IdText(a)).path;
      |p| > 7 && p[..7] == "/Books/" && ParseInt(p[7..]) == Some(a)
    ensures a != b ==> GetBookById(IdText(a)).path != GetBookById(IdText(b)).path
    ensures UpdateBook(IdText(a), data).path == DeleteBook(IdText(a)).path == GetBookById(IdText(a)).path
  {
    var p, q := GetBookById(IdText(a)).path, GetBookById(IdText(b)).path;
    assert p[7..] == IdText(a);
    assert q[7..] == IdText(b);
  }

  /** The same for chapters: the path reads back as the chapter id. */
  lemma ChapterPathsAddressOneChapter(a: int, b: int, data: Json)
    ensures var p := GetChapterById(IdText(a)).path;
      |p| > 10 && p[..10] == "/Chapters/" && ParseInt(p[10..]) == Some(a)
    ensures a != b ==> GetChapterById(IdText(a)).path != GetChapterById(IdText(b)).path
    ensures UpdateChapter(IdText(a), data).path == DeleteChapter(IdText(a)).path == GetChapterById(IdText(a)).path
  {
    var p, q := GetChapterById(IdText(a)).path, GetChapterById(IdText(b)).path;
    assert p[10..] == IdText(a);
    assert q[10..] == IdText(b);
  }

  /** A chapter is created by a `POST` whose body carries the parent's id and every other field unchanged. */
  lemma CreateChapterBody(bookId: string, chapterData: map<string, Json>)
    ensures var r := CreateChapter(bookId, chapterData);
      && r.verb == Post && r.path == "/Chapters"
      && r.body.Some? && r.body.value.JObj?
      && Property(r.body.value, "bookId") == Some(JStr(bookId))
      && forall k :: k in chapterData && k != "bookId" ==> Property(r.body.value, k) == Some(chapterData[k])
  {
  }
}
