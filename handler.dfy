/**
 * The three handlers that change the shared `books` array: add appends, update
 * replaces one element in place, delete splices one element out. The array is
 * a field of `Bookshelf`; it starts empty, as the `./books` module does.
 */
module Handler {
  import opened Wrappers
  import opened Sequences
  import opened Books
  import opened Queries

  class Bookshelf {
    var books: seq<Book>

    /** Every stored record keeps its pages in range and its `finished` flag derived. */
    ghost predicate Valid()
      reads this
    {
      forall b :: b in books ==> WellFormed(b)
    }

    constructor ()
      ensures Valid() && books == []
    {
      books := [];
    }

    /**
     * addBookHandler, with the random id and the current time as parameters.
     * A missing name, then too many read pages, reject with 400 and leave the
     * store alone; otherwise the new record is appended and its id returned.
     * The post-append existence check always succeeds, so 500 never occurs.
     */
    method AddBook(p: Payload, id: string, now: Timestamp) returns (r: Response)
      requires Valid()
      modifies this
      ensures Valid()
      ensures Validate(p).Some? ==> r == Rejected(Validate(p).value) && books == old(books)
      ensures Validate(p).None? ==> r == Created(id) && books == old(books) + [NewBook(id, p, now)]
      ensures r != InternalError
      ensures UniqueIds(old(books)) && IndexOf(old(books), id) == -1 ==> UniqueIds(books)
    {
      if p.name.None? {
        return Rejected(NameMissing);
      }
      if p.readPage > p.pageCount {
        return Rejected(ReadPageExceedsPageCount);
      }
      var book := NewBook(id, p, now);
      books := books + [book];
      assert book in books && IdIs(id)(book);
      var isSuccess := |Filter(books, IdIs(id))| > 0;
      if isSuccess {
        r := Created(id);
      } else {
        r := InternalError;
      }
      if UniqueIds(old(books)) && IndexOf(old(books), id) == -1 {
        AppendFreshKeepsUnique(old(books), book);
      }
    }

    /**
     * editBookByIdHandler. The id is looked up first, so an unknown id gives
     * 404 whatever the payload; then the payload is validated (400). On
     * success only the first record holding `id` is replaced.
     */
    method EditBookById(id: string, p: Payload, now: Timestamp) returns (r: Response)
      requires Valid()
      modifies this
      ensures Valid()
      ensures |books| == |old(books)|
      ensures IndexOf(old(books), id) == -1 ==> r == NotFound && books == old(books)
      ensures IndexOf(old(books), id) >= 0 && Validate(p).Some? ==>
        r == Rejected(Validate(p).value) && books == old(books)
      ensures IndexOf(old(books), id) >= 0 && Validate(p).None? ==>
        var i := IndexOf(old(books), id);
        && r == Updated
        && books == old(books)[i := Revised(old(books)[i], p, now)]
        && books[i].id == id && books[i].insertedAt == old(books)[i].insertedAt
        && books[i].finished == (p.pageCount == p.readPage)
        && forall j :: 0 <= j < |books| && j != i ==> books[j] == old(books)[j]
      ensures UniqueIds(old(books)) ==> UniqueIds(books)
    {
      var updatedAt := now;
      var index := IndexOf(books, id);
      if index != -1 {
        if p.name.None? {
          return Rejected(NameMissing);
        }
        if p.readPage > p.pageCount {
          return Rejected(ReadPageExceedsPageCount);
        }
        ReviseKeepsUnique(books, index, p, updatedAt);
        books := books[index := Revised(books[index], p, updatedAt)];
        return Updated;
      }
      return NotFound;
    }

    /**
     * deleteBookByIdHandler: the first record holding `id` is spliced out and
     * the others keep their order; an unknown id gives 404.
     */
    method DeleteBookById(id: string) returns (r: Response)
      requires Valid()
      modifies this
      ensures Valid()
      ensures IndexOf(old(books), id) == -1 ==> r == NotFound && books == old(books)
      ensures IndexOf(old(books), id) >= 0 ==>
        r == Deleted && books == RemoveAt(old(books), IndexOf(old(books), id))
      ensures UniqueIds(old(books)) ==> UniqueIds(books)
    {
      var index := IndexOf(books, id);
      if index != -1 {
        RemoveKeepsUnique(books, index);
        books := RemoveAt(books, index);
        return Deleted;
      }
      return NotFound;
    }
  }

  /** Appending a record whose id is not yet stored keeps ids unique. */
  lemma AppendFreshKeepsUnique(s: seq<Book>, b: Book)
    requires UniqueIds(s) && IndexOf(s, b.id) == -1
    ensures UniqueIds(s + [b])
  {
    forall j, k | 0 <= j < k < |s + [b]| ensures (s + [b])[j].id != (s + [b])[k].id {
      if k == |s| {
        assert s[j] in s;
      }
    }
  }

  /** Revising a record in place keeps ids unique, since its id is kept. */
  lemma ReviseKeepsUnique(s: seq<Book>, i: int, p: Payload, now: Timestamp)
    requires 0 <= i < |s| && Validate(p) == None
    ensures UniqueIds(s) ==> UniqueIds(s[i := Revised(s[i], p, now)])
  {
  }

  /** Removing a record keeps ids unique. */
  lemma RemoveKeepsUnique(s: seq<Book>, i: int)
    requires 0 <= i < |s|
    ensures UniqueIds(s) ==> UniqueIds(RemoveAt(s, i))
  {
    var r := RemoveAt(s, i);
    if UniqueIds(s) {
      forall j, k | 0 <= j < k < |r| ensures r[j].id != r[k].id {
        var j' := if j < i then j else j + 1;
        var k' := if k < i then k else k + 1;
        assert r[j] == s[j'] && r[k] == s[k'];
      }
    }
  }

  /** After a successful add with a fresh id, get-by-id of that id finds the new record. */
  lemma {:induction false} GetAfterAdd(s: seq<Book>, id: string, p: Payload, now: Timestamp)
    requires IndexOf(s, id) == -1 && Validate(p) == None
    ensures GetBookById(s + [NewBook(id, p, now)], id) == Found(NewBook(id, p, now))
  {
    var t := s + [NewBook(id, p, now)];
    assert forall j :: 0 <= j < |s| ==> t[j] == s[j] && s[j] in s;
    assert IndexOf(t, id) == |s|;
  }

  /** When ids are unique, get-by-id of a deleted record's id fails with 404. */
  lemma GetAfterDelete(s: seq<Book>, id: string)
    requires UniqueIds(s) && IndexOf(s, id) >= 0
    ensures GetBookById(RemoveAt(s, IndexOf(s, id)), id) == NotFound
  {
    var i := IndexOf(s, id);
    var r := RemoveAt(s, i);
    forall b | b in r ensures b.id != id {
      var j :| 0 <= j < |r| && r[j] == b;
      if j < i {
        assert r[j] == s[j];
      } else {
        assert r[j] == s[j + 1];
      }
    }
  }

  /**
   * Applying the same accepted payload twice finds the same record again, and
   * leaves the store as one application would, except for that record's
   * `updatedAt`.
   */
  lemma EditTwice(s: seq<Book>, id: string, p: Payload, first: Timestamp, second: Timestamp)
    requires IndexOf(s, id) >= 0 && Validate(p) == None
    ensures var i := IndexOf(s, id);
      var once := s[i := Revised(s[i], p, first)];
      && IndexOf(once, id) == i
      && once[i := Revised(once[i], p, second)] == s[i := Revised(s[i], p, second)]
      && once == s[i := Revised(s[i], p, second).(updatedAt := first)]
  {
    IndexOfAfterRevise(s, IndexOf(s, id), p, first);
  }

  /** Revising the record at the first index holding an id leaves that index first. */
  lemma {:induction false} IndexOfAfterRevise(s: seq<Book>, i: int, p: Payload, now: Timestamp)
    requires 0 <= i < |s| && Validate(p) == None
    requires IndexOf(s, s[i].id) == i
    ensures IndexOf(s[i := Revised(s[i], p, now)], s[i].id) == i
  {
    var t := s[i := Revised(s[i], p, now)];
    assert forall j :: 0 <= j < i ==> t[j] == s[j];
    assert t[i].id == s[i].id;
  }
}
