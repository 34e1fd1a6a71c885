// The process-wide book store and its handlers. The store is one ordered
// list that the handlers scan and change in place.

module Store {
  import opened Books

  class BookStore {
    /** The entries, in insertion order. */
    var books: seq<Book>

    /** Every process starts with the five seeded entries. */
    constructor ()
      ensures books == Seed()
      ensures IdsIncreasing(books) && AllWellFormed(books)
    {
      books := Seed();
      SeedIsOrderedAndWellFormed();
    }

    /** The whole store, in insertion order. */
    method ReadAllBook() returns (r: seq<Book>)
      ensures r == books
    {
      r := books;
    }

    /** Linear search: the first entry carrying `bookId`, or None. */
    method ReadBookById(bookId: int) returns (r: Option<Book>)
      ensures r == FirstWithId(books, bookId)
      ensures r.None? <==> forall i :: 0 <= i < |books| ==> books[i].id != bookId
      ensures r.Some? ==>
        exists i :: 0 <= i < |books| && books[i] == r.value && books[i].id == bookId &&
          forall j :: 0 <= j < i ==> books[j].id != bookId
    {
      for i := 0 to |books|
        invariant forall j :: 0 <= j < i ==> books[j].id != bookId
      {
        if books[i].id == bookId {
          return Some(books[i]);
        }
      }
      return None;
    }

    /** Order-preserving filter: the entries whose rating is `bookRating`. */
    method ReadBookByRating(bookRating: int) returns (lst: seq<Book>)
      ensures lst == WithRating(books, bookRating)
      ensures forall b :: b in lst <==> b in books && b.rating == bookRating
      ensures |lst| == |RatingIndexSet(books, bookRating)|
    {
      lst := [];
      for i := 0 to |books|
        invariant lst == WithRating(books[..i], bookRating)
      {
        assert books[..i + 1][..i] == books[..i];
        if books[i].rating == bookRating {
          lst := lst + [books[i]];
        }
      }
      assert books[..|books|] == books;
      WithRatingMembers(books, bookRating);
      WithRatingLength(books, bookRating);
    }

    /**
     * Appends the request's fields under a server-chosen id. On an empty store
     * choosing the id fails before anything is appended (ok is false).
     */
    method CreateBook(newBook: BookRequest) returns (ok: bool)
      requires ValidRequest(newBook)
      modifies this
      ensures ok <==> old(books) != []
      ensures ok ==> books == old(books) + [FindBookId(old(books), newBook).value]
      ensures !ok ==> books == old(books)
      ensures old(AllWellFormed(books)) ==> AllWellFormed(books)
      ensures old(IdsIncreasing(books)) && |old(books)| >= 2 ==> IdsIncreasing(books)
    {
      match FindBookId(books, newBook)
      case None =>
        ok := false;
      case Some(book) =>
        CreatedIsWellFormed(books, newBook);
        if |books| >= 2 && IdsIncreasing(books) {
          CreateKeepsIdsIncreasing(books, newBook);
        }
        books := books + [book];
        ok := true;
    }

    /** Replaces, in place, every entry whose id is the request's id by the request. */
    method UpdateBook(book: BookRequest)
      requires ValidRequest(book)
      modifies this
      ensures books == Updated(old(books), book)
      ensures |books| == |old(books)|
      ensures forall i :: 0 <= i < |books| ==>
        books[i] == if book.id == Some(old(books)[i].id) then Replacement(old(books)[i].id, book) else old(books)[i]
      ensures old(AllWellFormed(books)) ==> AllWellFormed(books)
      ensures old(IdsIncreasing(books)) ==> IdsIncreasing(books)
    {
      ghost var before := books;
      for i := 0 to |books|
        invariant |books| == |before|
        invariant forall j :: 0 <= j < i ==> books[j] == Updated(before, book)[j]
        invariant forall j :: i <= j < |books| ==> books[j] == before[j]
      {
        if book.id == Some(books[i].id) {
          books := books[i := Replacement(books[i].id, book)];
        }
      }
      if AllWellFormed(before) {
        UpdateKeepsWellFormed(before, book);
      }
      if IdsIncreasing(before) {
        UpdateKeepsIdsIncreasing(before, book);
      }
    }

    /** Removes the first entry carrying `bookId`; silent when there is none. */
    method DeleteBook(bookId: int)
      modifies this
      ensures books == DeleteFirst(old(books), bookId)
      ensures old(AllWellFormed(books)) ==> AllWellFormed(books)
      ensures old(IdsIncreasing(books)) ==> IdsIncreasing(books)
      ensures old(IdsIncreasing(books)) ==> FirstWithId(books, bookId) == None
    {
      ghost var before := books;
      if AllWellFormed(before) {
        DeleteKeepsWellFormed(before, bookId);
      }
      if IdsIncreasing(before) {
        DeleteKeepsIdsIncreasing(before, bookId);
        DeleteThenLookupFails(before, bookId);
      }
      for i := 0 to |books|
        invariant books == before
        invariant forall j :: 0 <= j < i ==> books[j].id != bookId
      {
        if books[i].id == bookId {
          books := books[..i] + books[i + 1..];
          break;
        }
      }
    }
  }
}
