/** Response helpers and the book lookup of the demo API. A response is
    modelled as the value handed to Flask's `make_response`: the JSON body
    as a map, the status code and the headers. */
module Utils {
  import opened Wrappers

  const JSON_MIME_TYPE := "application/json"
  const CONTENT_TYPE := "Content-Type"

  /** A JSON object with string values, the only bodies this API sends. */
  type Body = map<string, string>

  datatype Response = Response(body: Body, status: int, headers: map<string, string>)

  // ----- search_book -----

  /** A book is a dictionary; the lookup reads its `id` entry. */
  type Book<V> = map<string, V>

  /** How `search_book` ends: it returns the first book with the wanted id,
      it returns `None` after the last book, or it raises `KeyError` on a
      book without an `id` before it has found one. */
  datatype Search<T> = Found(item: T) | NotFound | MissingId

  /** The loop moves past `book` when it has an id other than `bookId`. */
  predicate Passes<V(==)>(book: Book<V>, bookId: V)
  {
    "id" in book && book["id"] != bookId
  }

  /** The result of scanning `books` front to back for `bookId`. */
  function FirstWithId<V(==)>(books: seq<Book<V>>, bookId: V): (r: Search<Book<V>>)
    ensures r.NotFound? <==> forall j :: 0 <= j < |books| ==> Passes(books[j], bookId)
    ensures r.Found? ==> r.item in books && "id" in r.item && r.item["id"] == bookId
    ensures r.MissingId? ==> exists j :: 0 <= j < |books| && "id" !in books[j]
  {
    if books == [] then NotFound
    else if "id" !in books[0] then MissingId
    else if books[0]["id"] == bookId then Found(books[0])
    else
      var r := FirstWithId(books[1..], bookId);
      assert forall j :: 1 <= j < |books| ==> books[j] == books[1..][j - 1];
      r
  }

  /** The book found is the first one with the id: every book before it
      has another id, so the loop passed over it. */
  lemma {:induction false} FoundIsFirst<V>(books: seq<Book<V>>, bookId: V, i: nat)
    requires i < |books| && "id" in books[i] && books[i]["id"] == bookId
    requires forall j :: 0 <= j < i ==> Passes(books[j], bookId)
    ensures FirstWithId(books, bookId) == Found(books[i])
  {
    if i > 0 {
      assert Passes(books[0], bookId);
      FoundIsFirst(books[1..], bookId, i - 1);
    }
  }

  /** Conversely, a found book sits at some position after books the loop
      passed over. */
  lemma {:induction false} FoundHasPosition<V>(books: seq<Book<V>>, bookId: V)
    requires FirstWithId(books, bookId).Found?
    ensures exists i :: 0 <= i < |books| && books[i] == FirstWithId(books, bookId).item && (forall j :: 0 <= j < i ==> Passes(books[j], bookId))
  {
    if books[0] != FirstWithId(books, bookId).item || !("id" in books[0] && books[0]["id"] == bookId) {
      FoundHasPosition(books[1..], bookId);
      var i :| 0 <= i < |books[1..]| && books[1..][i] == FirstWithId(books[1..], bookId).item
        && (forall j :: 0 <= j < i ==> Passes(books[1..][j], bookId));
      assert books[i + 1] == FirstWithId(books, bookId).item;
      assert forall j :: 0 <= j < i + 1 ==> Passes(books[j], bookId) by {
        forall j | 0 <= j < i + 1 ensures Passes(books[j], bookId) {
          if j > 0 { assert books[j] == books[1..][j - 1]; }
        }
      }
    } else {
      assert books[0] == FirstWithId(books, bookId).item;
    }
  }

  /** `search_book(books, book_id)`: the loop over the list with an early
      return. The list is only read. */
  method SearchBook<V(==)>(books: array<Book<V>>, bookId: V) returns (r: Search<Book<V>>)
    ensures r == FirstWithId(books[..], bookId)
  {
    var i := 0;
    while i < books.Length
      invariant 0 <= i <= books.Length
      invariant FirstWithId(books[..], bookId) == FirstWithId(books[i..], bookId)
    {
      var book := books[i];
      assert books[i..][0] == book && books[i..][1..] == books[i + 1..];
      if "id" !in book {
        return MissingId;
      }
      if book["id"] == bookId {
        return Found(book);
      }
      i := i + 1;
    }
    assert books[i..] == [];
    return NotFound;
  }

  // ----- json_response and error_response -----

  /** The header defaulting of `json_response`: `Content-Type` is added as
      `application/json` when absent, an existing `Content-Type` is kept,
      and every other header is left as it was. */
  function WithJsonContentType(headers: map<string, string>): (r: map<string, string>)
    ensures r.Keys == headers.Keys + {CONTENT_TYPE}
    ensures r[CONTENT_TYPE] == if CONTENT_TYPE in headers then headers[CONTENT_TYPE] else JSON_MIME_TYPE
    ensures forall k :: k in headers ==> r[k] == headers[k]
  {
    if CONTENT_TYPE !in headers then headers[CONTENT_TYPE := JSON_MIME_TYPE] else headers
  }

  /** A response dictionary that `json_response` may update in place. */
  class HeaderDict {
    var entries: map<string, string>

    constructor (entries: map<string, string>)
      ensures this.entries == entries
    {
      this.entries := entries;
    }
  }

  /** `json_response(data, status, headers)`. A missing or empty `data` is
      sent as `{}`. A missing or empty headers dictionary is replaced by a
      new one, so the caller's dictionary is changed only when it already
      held an entry; then it gains the `Content-Type` the response carries. */
  method JsonResponse(data: Option<Body> := None, status: int := 200, headers: HeaderDict? := null)
    returns (r: Response)
    modifies headers
    ensures r.body == if data.Some? then data.value else map[]
    ensures r.status == status
    ensures r.headers == WithJsonContentType(if headers == null then map[] else old(headers.entries))
    ensures headers != null && old(headers.entries) != map[] ==> headers.entries == r.headers
    ensures headers != null && old(headers.entries) == map[] ==> headers.entries == map[]
  {
    var body := if data.Some? && data.value != map[] then data.value else map[];
    var dict := headers;
    if dict == null || dict.entries == map[] {
      dict := new HeaderDict(map[]);
    }
    if CONTENT_TYPE !in dict.entries {
      dict.entries := dict.entries[CONTENT_TYPE := JSON_MIME_TYPE];
    }
    r := Response(body, status, dict.entries);
  }

  /** `error_response(error, status, headers)`: a JSON response whose body
      is `{"error": error}`, with status 400 unless another is given. */
  method ErrorResponse(error: string, status: int := 400, headers: HeaderDict? := null)
    returns (r: Response)
    modifies headers
    ensures r == ErrorReply(error, status, if headers == null then map[] else old(headers.entries))
    ensures headers != null && old(headers.entries) != map[] ==> headers.entries == r.headers
    ensures headers != null && old(headers.entries) == map[] ==> headers.entries == map[]
  {
    r := JsonResponse(Some(map["error" := error]), status, headers);
  }

  /** The response value `error_response` builds, as the authentication
      guard uses it: body `{"error": error}`, default status 400, and a
      JSON `Content-Type`. */
  function ErrorReply(error: string, status: int := 400, headers: map<string, string> := map[]): (r: Response)
    ensures r.body.Keys == {"error"} && r.body["error"] == error
    ensures r.status == status
    ensures CONTENT_TYPE in r.headers
    ensures r.headers[CONTENT_TYPE] == if CONTENT_TYPE in headers then headers[CONTENT_TYPE] else JSON_MIME_TYPE
  {
    Response(map["error" := error], status, WithJsonContentType(headers))
  }
}
