/**
 * The book record, the request payload shared by add and update, their
 * validation, the handlers' responses, and the store operations the handlers
 * use on the shared `books` array: `findIndex` by id and `splice(index, 1)`.
 */
module Books {
  import opened Wrappers

  /** An ISO timestamp produced by `new Date().toISOString()`; its contents are never inspected. */
  type Timestamp = string

  /** One stored record, with the fields in the order the add handler builds them. */
  datatype Book = Book(
    id: string,
    name: string,
    year: int,
    author: string,
    summary: string,
    publisher: string,
    pageCount: int,
    readPage: int,
    reading: bool,
    insertedAt: Timestamp,
    updatedAt: Timestamp,
    finished: bool)

  /** The request body of add and update; only `name` may be missing (`undefined`). */
  datatype Payload = Payload(
    name: Option<string>,
    year: int,
    author: string,
    summary: string,
    publisher: string,
    pageCount: int,
    readPage: int,
    reading: bool)

  /** Why a payload is rejected with status 400. */
  datatype Invalid = NameMissing | ReadPageExceedsPageCount

  /** The handler outcomes, one constructor per distinct response. */
  datatype Response =
    | Created(bookId: string)
    | Listed(books: seq<Summary>)
    | Found(book: Book)
    | Updated
    | Deleted
    | Rejected(reason: Invalid)
    | NotFound
    | InternalError

  /** The list view of a record. */
  datatype Summary = Summary(id: string, name: string, publisher: string)

  /** The HTTP status code each response is sent with. */
  function Code(r: Response): int
  {
    match r
    case Created(_) => 201
    case Listed(_) => 200
    case Found(_) => 200
    case Updated => 200
    case Deleted => 200
    case Rejected(_) => 400
    case NotFound => 404
    case InternalError => 500
  }

  /**
   * The two checks add and update share, in the order the handlers make them:
   * a missing name is reported before an excess of read pages.
   */
  function Validate(p: Payload): (r: Option<Invalid>)
    ensures r == None <==> p.name.Some? && p.readPage <= p.pageCount
    ensures p.name.None? ==> r == Some(NameMissing)
    ensures p.name.Some? && p.readPage > p.pageCount ==> r == Some(ReadPageExceedsPageCount)
  {
    if p.name.None? then Some(NameMissing)
    else if p.readPage > p.pageCount then Some(ReadPageExceedsPageCount)
    else None
  }

  /** The invariant every stored record keeps: pages in range, `finished` derived from them. */
  predicate WellFormed(b: Book)
  {
    b.readPage <= b.pageCount && b.finished == (b.pageCount == b.readPage)
  }

  /** No two records of the store share an id. */
  predicate UniqueIds(s: seq<Book>)
  {
    forall j, k :: 0 <= j < k < |s| ==> s[j].id != s[k].id
  }

  /** The record add builds from a payload it accepted. */
  function NewBook(id: string, p: Payload, now: Timestamp): (b: Book)
    requires Validate(p) == None
    ensures WellFormed(b)
    ensures b.id == id && Some(b.name) == p.name
    ensures b.year == p.year && b.author == p.author && b.summary == p.summary && b.publisher == p.publisher
    ensures b.pageCount == p.pageCount && b.readPage == p.readPage && b.reading == p.reading
    ensures b.insertedAt == now && b.updatedAt == now
    ensures b.finished == (p.pageCount == p.readPage)
  {
    Book(id, p.name.value, p.year, p.author, p.summary, p.publisher,
         p.pageCount, p.readPage, p.reading, now, now, p.pageCount == p.readPage)
  }

  /** The record update writes over `b`: every payload field replaced, id and insertion time kept. */
  function Revised(b: Book, p: Payload, now: Timestamp): (r: Book)
    requires Validate(p) == None
    ensures WellFormed(r)
    ensures r.id == b.id && r.insertedAt == b.insertedAt && r.updatedAt == now
    ensures r == NewBook(b.id, p, b.insertedAt).(updatedAt := now)
  {
    b.(name := p.name.value, year := p.year, author := p.author, summary := p.summary,
       publisher := p.publisher, pageCount := p.pageCount, readPage := p.readPage,
       finished := p.pageCount == p.readPage, reading := p.reading, updatedAt := now)
  }

  /** `books.findIndex(book => book.id === id)`: the first index holding `id`, or -1. */
  function IndexOf(s: seq<Book>, id: string): (r: int)
    ensures -1 <= r < |s|
    ensures r == -1 <==> forall b :: b in s ==> b.id != id
    ensures 0 <= r ==> s[r].id == id && forall j :: 0 <= j < r ==> s[j].id != id
    decreases |s|
  {
    if |s| == 0 then -1
    else if s[0].id == id then 0
    else
      var k := IndexOf(s[1..], id);
      assert forall b :: b in s ==> b == s[0] || b in s[1..];
      if k == -1 then -1 else k + 1
  }

  /** `s.splice(i, 1)`: the store without its `i`-th element, the rest in order. */
  function RemoveAt(s: seq<Book>, i: int): (r: seq<Book>)
    requires 0 <= i < |s|
    ensures |r| == |s| - 1
    ensures forall j :: 0 <= j < i ==> r[j] == s[j]
    ensures forall j :: i <= j < |r| ==> r[j] == s[j + 1]
  {
    s[..i] + s[i + 1..]
  }
}
