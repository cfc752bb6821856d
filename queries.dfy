/**
 * The two read-only handlers: listing with optional filters, and lookup by id.
 * Both are expressions over the store and never change it.
 */
module Queries {
  import opened Wrappers
  import opened Sequences
  import opened Books

  /**
   * The query string of the list handler. `reading` and `finished` arrive
   * already coerced to booleans; `None` means the parameter was absent.
   */
  datatype Query = Query(name: Option<string>, reading: Option<bool>, finished: Option<bool>)

  /** The test the filter in the get-by-id handler applies. */
  function IdIs(id: string): Book -> bool
  {
    (b: Book) => b.id == id
  }

  /** Case-insensitive `includes` of `name` in the record's name. */
  function NameIncludes(name: string): Book -> bool
  {
    (b: Book) => Contains(Lower(b.name), Lower(name))
  }

  function ReadingIs(v: bool): Book -> bool
  {
    (b: Book) => b.reading == v
  }

  function FinishedIs(v: bool): Book -> bool
  {
    (b: Book) => b.finished == v
  }

  /** The name filter, a no-op when the parameter is absent. */
  function ByName(s: seq<Book>, name: Option<string>): (r: seq<Book>)
    ensures name.None? ==> r == s
    ensures forall b :: b in r <==> b in s && (name.None? || NameIncludes(name.value)(b))
  {
    if name.None? then s else Filter(s, NameIncludes(name.value))
  }

  /** The reading filter, a no-op when the parameter is absent. */
  function ByReading(s: seq<Book>, reading: Option<bool>): (r: seq<Book>)
    ensures reading.None? ==> r == s
    ensures forall b :: b in r <==> b in s && (reading.None? || ReadingIs(reading.value)(b))
  {
    if reading.None? then s else Filter(s, ReadingIs(reading.value))
  }

  /** The finished filter, a no-op when the parameter is absent. */
  function ByFinished(s: seq<Book>, finished: Option<bool>): (r: seq<Book>)
    ensures finished.None? ==> r == s
    ensures forall b :: b in r <==> b in s && (finished.None? || FinishedIs(finished.value)(b))
  {
    if finished.None? then s else Filter(s, FinishedIs(finished.value))
  }

  function Summarize(b: Book): Summary
  {
    Summary(b.id, b.name, b.publisher)
  }

  /** `books.map(book => ({id, name, publisher}))`. */
  function Summaries(s: seq<Book>): (r: seq<Summary>)
    ensures |r| == |s|
    ensures forall i :: 0 <= i < |s| ==> r[i] == Summarize(s[i])
  {
    seq(|s|, i requires 0 <= i < |s| => Summarize(s[i]))
  }

  /** Whether a record passes every filter that the query sets (the reference reading of the query). */
  predicate Selects(q: Query, b: Book)
  {
    && (q.name.None? || NameIncludes(q.name.value)(b))
    && (q.reading.None? || b.reading == q.reading.value)
    && (q.finished.None? || b.finished == q.finished.value)
  }

  /** `Selects` as one function value, so that every filter by the same query uses the same value. */
  function Matches(q: Query): Book -> bool
  {
    (b: Book) => Selects(q, b)
  }

  /**
   * The list handler: name, then reading, then finished filter, then the
   * projection. The result is the projection of the in-order selection of the
   * records that pass every present filter.
   */
  function ListBooks(s: seq<Book>, q: Query): (r: seq<Summary>)
    ensures r == Summaries(Filter(s, Matches(q)))
  {
    ListFiltersCompose(s, q);
    Summaries(ByFinished(ByReading(ByName(s, q.name), q.reading), q.finished))
  }

  /** The three conditional filters in sequence select what `Selects` selects. */
  lemma {:induction false} ListFiltersCompose(s: seq<Book>, q: Query)
    ensures ByFinished(ByReading(ByName(s, q.name), q.reading), q.finished) == Filter(s, Matches(q))
  {
    var namePart: Book -> bool := (b: Book) => q.name.None? || NameIncludes(q.name.value)(b);
    var readingPart: Book -> bool := (b: Book) => namePart(b) && (q.reading.None? || b.reading == q.reading.value);
    var s1 := ByName(s, q.name);
    if q.name.None? {
      FilterAll(s, namePart);
    } else {
      FilterSame(s, NameIncludes(q.name.value), namePart);
    }
    assert s1 == Filter(s, namePart);
    var s2 := ByReading(s1, q.reading);
    if q.reading.None? {
      FilterFilter(s, namePart, (b: Book) => true, readingPart);
      FilterAll(s1, (b: Book) => true);
    } else {
      FilterFilter(s, namePart, ReadingIs(q.reading.value), readingPart);
    }
    assert s2 == Filter(s, readingPart);
    if q.finished.None? {
      FilterFilter(s, readingPart, (b: Book) => true, Matches(q));
      FilterAll(s2, (b: Book) => true);
    } else {
      FilterFilter(s, readingPart, FinishedIs(q.finished.value), Matches(q));
    }
  }

  /** With no query parameter the list handler returns every record, projected, in store order. */
  lemma ListWithoutFilters(s: seq<Book>)
    ensures ListBooks(s, Query(None, None, None)) == Summaries(s)
  {
    FilterAll(s, Matches(Query(None, None, None)));
  }

  /** A summary is listed exactly when some record that passes the filters projects to it. */
  lemma ListMembership(s: seq<Book>, q: Query, x: Summary)
    ensures x in ListBooks(s, q) <==> exists b :: b in s && Selects(q, b) && Summarize(b) == x
  {
    var f := Filter(s, Matches(q));
    if x in ListBooks(s, q) {
      var i :| 0 <= i < |f| && Summaries(f)[i] == x;
      assert f[i] in f;
    }
    if b :| b in s && Selects(q, b) && Summarize(b) == x {
      assert b in f;
      var i :| 0 <= i < |f| && f[i] == b;
      assert Summaries(f)[i] == x;
    }
  }

  /** Listing keeps store order: the listing of a concatenation is the concatenation of listings. */
  lemma {:induction false} ListKeepsOrder(a: seq<Book>, b: seq<Book>, q: Query)
    ensures ListBooks(a + b, q) == ListBooks(a, q) + ListBooks(b, q)
  {
    FilterAppend(a, b, Matches(q));
  }

  /** The id filter's first element is the record at the first index holding `id`. */
  lemma {:induction false} FirstWithId(s: seq<Book>, id: string)
    ensures IndexOf(s, id) == -1 ==> Filter(s, IdIs(id)) == []
    ensures IndexOf(s, id) >= 0 ==> Filter(s, IdIs(id)) != [] && Filter(s, IdIs(id))[0] == s[IndexOf(s, id)]
    decreases |s|
  {
    if |s| != 0 && s[0].id != id {
      FirstWithId(s[1..], id);
    }
  }

  /**
   * The get-by-id handler: the first element of the id filter. It finds the
   * record at the first index holding `id`, and fails with 404 exactly when
   * no record holds it.
   */
  function GetBookById(s: seq<Book>, id: string): (r: Response)
    ensures r == NotFound <==> forall b :: b in s ==> b.id != id
    ensures r != NotFound ==> r == Found(s[IndexOf(s, id)]) && r.book in s && r.book.id == id
  {
    FirstWithId(s, id);
    var matching := Filter(s, IdIs(id));
    if |matching| > 0 then Found(matching[0]) else NotFound
  }

  /** The list handler's response: always 200 with the filtered summaries. */
  function GetAllBooks(s: seq<Book>, q: Query): (r: Response)
    ensures Code(r) == 200 && r.Listed?
    ensures r.books == Summaries(Filter(s, Matches(q)))
  {
    Listed(ListBooks(s, q))
  }
}
