// The values of the book catalog and the specification of every handler
// over the ordered store, with the properties the handlers keep.

module Books {

  datatype Option<T> = None | Some(value: T)

  /** A catalog entry as the store holds it. */
  datatype Book = Book(id: int, title: string, author: string, description: string, rating: int)

  /** The body of a create or update request; the client may leave the id out. */
  datatype BookRequest = BookRequest(id: Option<int>, title: string, author: string, description: string, rating: int)

  /** The field constraints a request must meet before any handler sees it. */
  predicate ValidRequest(req: BookRequest)
    ensures ValidRequest(req) ==> |req.title| >= 3 && |req.author| >= 1 && 1 <= |req.description| <= 100
    ensures ValidRequest(req) ==> req.rating in {1, 2, 3, 4, 5}
  {
    |req.title| >= 3 && |req.author| >= 1 && 1 <= |req.description| <= 100 && 1 <= req.rating <= 5
  }

  /** The same constraints, read off a stored entry. */
  predicate WellFormed(b: Book)
  {
    ValidRequest(BookRequest(Some(b.id), b.title, b.author, b.description, b.rating))
  }

  predicate AllWellFormed(s: seq<Book>)
  {
    forall i :: 0 <= i < |s| ==> WellFormed(s[i])
  }

  /** Ids strictly increase along the store, so no id occurs twice. */
  predicate IdsIncreasing(s: seq<Book>)
  {
    forall i, j :: 0 <= i < j < |s| ==> s[i].id < s[j].id
  }

  /** The five entries every process starts with. */
  function Seed(): (r: seq<Book>)
    ensures |r| == 5
    ensures forall i :: 0 <= i < |r| ==> r[i].id == i + 1
  {
    [ Book(1, "Computer Science Pro", "Udemy", "A very nice book!", 5),
      Book(2, "Learning FastAPI", "Udemy", "A nice book!", 4),
      Book(3, "Python", "Udemy", "An awesome book!", 3),
      Book(4, "Book1", "Author 1", "None", 2),
      Book(5, "Book2", "Author 2", "None", 1) ]
  }

  lemma SeedIsOrderedAndWellFormed()
    ensures |Seed()| == 5
    ensures IdsIncreasing(Seed()) && AllWellFormed(Seed())
  {
  }

  // ---------------------------------------------------------------- lookup

  /** The position of the first entry carrying `id`, if any. */
  function IndexOfId(s: seq<Book>, id: int): (r: Option<nat>)
    ensures r.None? <==> forall i :: 0 <= i < |s| ==> s[i].id != id
    ensures r.Some? ==> r.value < |s| && s[r.value].id == id
    ensures r.Some? ==> forall j :: 0 <= j < r.value ==> s[j].id != id
  {
    if s == [] then None
    else if s[0].id == id then Some(0)
    else match IndexOfId(s[1..], id)
      case None => None
      case Some(k) => Some(k + 1)
  }

  /** The entry a lookup by id returns: the first one carrying that id. */
  function FirstWithId(s: seq<Book>, id: int): (r: Option<Book>)
    ensures r.None? <==> forall i :: 0 <= i < |s| ==> s[i].id != id
    ensures r.Some? ==> r.value.id == id && r.value in s
    ensures r.Some? ==>
      exists i :: 0 <= i < |s| && s[i] == r.value && s[i].id == id &&
        forall j :: 0 <= j < i ==> s[j].id != id
  {
    match IndexOfId(s, id)
    case None => None
    case Some(k) => Some(s[k])
  }

  /** With ids in increasing order, an entry is found by its own id. */
  lemma FindsEveryEntry(s: seq<Book>, i: nat)
    requires IdsIncreasing(s) && i < |s|
    ensures FirstWithId(s, s[i].id) == Some(s[i])
  {
  }

  // ---------------------------------------------------------------- filter by rating

  /** The entries with the given rating, in store order. */
  function WithRating(s: seq<Book>, rating: int): (r: seq<Book>)
    ensures |r| <= |s|
    ensures forall k :: 0 <= k < |r| ==> r[k].rating == rating
  {
    if s == [] then []
    else
      var rest := WithRating(s[..|s| - 1], rating);
      if s[|s| - 1].rating == rating then rest + [s[|s| - 1]] else rest
  }

  /** The positions of the entries with the given rating, ascending. */
  function RatingPositions(s: seq<Book>, rating: int): seq<int>
  {
    if s == [] then []
    else
      var rest := RatingPositions(s[..|s| - 1], rating);
      if s[|s| - 1].rating == rating then rest + [|s| - 1] else rest
  }

  /** The set of positions holding the given rating. */
  function RatingIndexSet(s: seq<Book>, rating: int): set<int>
  {
    set i | 0 <= i < |s| && s[i].rating == rating
  }

  /**
   * The filter picks exactly the matching positions, in ascending order:
   * it is the subsequence of the store made of the entries with that rating.
   */
  lemma {:induction false} WithRatingSelects(s: seq<Book>, rating: int)
    ensures |WithRating(s, rating)| == |RatingPositions(s, rating)|
    ensures forall k :: 0 <= k < |RatingPositions(s, rating)| ==>
      0 <= RatingPositions(s, rating)[k] < |s| &&
      WithRating(s, rating)[k] == s[RatingPositions(s, rating)[k]]
    ensures forall k, l :: 0 <= k < l < |RatingPositions(s, rating)| ==>
      RatingPositions(s, rating)[k] < RatingPositions(s, rating)[l]
    ensures forall i :: i in RatingPositions(s, rating) <==> 0 <= i < |s| && s[i].rating == rating
  {
    if s != [] {
      var n := |s| - 1;
      var init := s[..n];
      WithRatingSelects(init, rating);
      assert forall i :: 0 <= i < n ==> init[i] == s[i];
    }
  }

  /** The filter's length is the number of entries with that rating. */
  lemma {:induction false} WithRatingLength(s: seq<Book>, rating: int)
    ensures |WithRating(s, rating)| == |RatingIndexSet(s, rating)|
  {
    if s != [] {
      var n := |s| - 1;
      WithRatingLength(s[..n], rating);
      var before := RatingIndexSet(s[..n], rating);
      assert n !in before;
      if s[n].rating == rating {
        assert RatingIndexSet(s, rating) == before + {n};
      } else {
        assert RatingIndexSet(s, rating) == before;
      }
    }
  }

  /** An entry is in the filter exactly when it is in the store with that rating. */
  lemma {:induction false} WithRatingMembers(s: seq<Book>, rating: int)
    ensures forall b :: b in WithRating(s, rating) <==> b in s && b.rating == rating
  {
    if s != [] {
      var n := |s| - 1;
      WithRatingMembers(s[..n], rating);
      assert s == s[..n] + [s[n]];
    }
  }

  // ---------------------------------------------------------------- create

  /**
   * The entry create appends, as the source computes it: the request's fields
   * under a server-chosen id. The id is 1 when the store holds exactly one
   * entry and the last entry's id + 1 otherwise; on an empty store reading the
   * last entry fails (None).
   */
  function FindBookId(s: seq<Book>, req: BookRequest): (r: Option<Book>)
    ensures r.None? <==> s == []
    ensures r.Some? ==>
      r.value.title == req.title && r.value.author == req.author &&
      r.value.description == req.description && r.value.rating == req.rating
    ensures r.Some? && |s| == 1 ==> r.value.id == 1
    ensures r.Some? && |s| >= 2 ==> r.value.id == s[|s| - 1].id + 1
  {
    if s == [] then None
    else Some(Book(if |s| == 1 then 1 else s[|s| - 1].id + 1, req.title, req.author, req.description, req.rating))
  }

  /** The client's id plays no part in the id create assigns. */
  lemma FindBookIdIgnoresClientId(s: seq<Book>, req: BookRequest, clientId: Option<int>)
    ensures FindBookId(s, req) == FindBookId(s, req.(id := clientId))
  {
  }

  /** A valid request yields a well-formed entry. */
  lemma CreatedIsWellFormed(s: seq<Book>, req: BookRequest)
    requires ValidRequest(req) && s != []
    ensures WellFormed(FindBookId(s, req).value)
  {
  }

  /**
   * With two or more entries in increasing id order, the new id is above every
   * id in the store, so appending keeps the order.
   */
  lemma CreateKeepsIdsIncreasing(s: seq<Book>, req: BookRequest)
    requires IdsIncreasing(s) && |s| >= 2
    ensures forall i :: 0 <= i < |s| ==> s[i].id < FindBookId(s, req).value.id
    ensures IdsIncreasing(s + [FindBookId(s, req).value])
  {
  }

  /**
   * As written, a store holding one entry with a positive id gets a new entry
   * with id 1, so ids stop increasing; when that entry's id is 1 the id is
   * repeated. The guard on a one-entry store gives 1 instead of last + 1.
   */
  lemma {:induction false} SingleEntryCreateRepeatsId(b: Book, req: BookRequest)
    requires b.id >= 1
    ensures FindBookId([b], req).value.id == 1
    ensures b.id == 1 ==> FindBookId([b], req).value.id == b.id
    ensures !IdsIncreasing([b] + [FindBookId([b], req).value])
  {
    var t := [b] + [FindBookId([b], req).value];
    assert t[0].id >= t[1].id;
  }

  /**
   * The corrected id rule: last + 1, the rule the two-or-more branch already
   * follows, extended to the empty store, which gets id 1.
   */
  function IntendedNextId(s: seq<Book>): (r: int)
    ensures IdsIncreasing(s) ==> forall i :: 0 <= i < |s| ==> s[i].id < r
  {
    if s == [] then 1 else s[|s| - 1].id + 1
  }

  /** The intended rule keeps ids increasing on every store, and positive. */
  lemma IntendedCreateKeepsIdsIncreasing(s: seq<Book>, req: BookRequest)
    requires IdsIncreasing(s)
    requires forall i :: 0 <= i < |s| ==> s[i].id >= 1
    ensures IdsIncreasing(s + [Book(IntendedNextId(s), req.title, req.author, req.description, req.rating)])
    ensures IntendedNextId(s) >= 1
  {
  }

  // ---------------------------------------------------------------- update

  /** The entry an update writes at a matching position (whose id is the request's). */
  function Replacement(id: int, req: BookRequest): (r: Book)
    ensures r.id == id
    ensures r.title == req.title && r.author == req.author
    ensures r.description == req.description && r.rating == req.rating
  {
    Book(id, req.title, req.author, req.description, req.rating)
  }

  /** Every position whose id is the request's id holds the request; the rest keep their entry. */
  function Updated(s: seq<Book>, req: BookRequest): (r: seq<Book>)
    ensures |r| == |s|
    ensures forall i :: 0 <= i < |s| ==> r[i].id == s[i].id
  {
    seq(|s|, i requires 0 <= i < |s| => if req.id == Some(s[i].id) then Replacement(s[i].id, req) else s[i])
  }

  /** An update whose id matches nothing leaves the store as it was. */
  lemma UpdateWithoutMatchIsNoOp(s: seq<Book>, req: BookRequest)
    requires forall i :: 0 <= i < |s| ==> req.id != Some(s[i].id)
    ensures Updated(s, req) == s
  {
  }

  /** Ids stay where they were, so their order survives an update. */
  lemma UpdateKeepsIdsIncreasing(s: seq<Book>, req: BookRequest)
    requires IdsIncreasing(s)
    ensures IdsIncreasing(Updated(s, req))
  {
  }

  lemma UpdateKeepsWellFormed(s: seq<Book>, req: BookRequest)
    requires AllWellFormed(s) && ValidRequest(req)
    ensures AllWellFormed(Updated(s, req))
  {
  }

  /**
   * After an update, a lookup of the request's id finds the request's fields,
   * and a lookup of any other id finds what it found before.
   */
  lemma UpdateThenLookup(s: seq<Book>, req: BookRequest, id: int)
    ensures var found := FirstWithId(Updated(s, req), id);
      if req.id == Some(id) then
        found == if FirstWithId(s, id).None? then None else Some(Replacement(id, req))
      else found == FirstWithId(s, id)
  {
  }

  // ---------------------------------------------------------------- delete

  /** The store without its first entry carrying `id`; unchanged when there is none. */
  function DeleteFirst(s: seq<Book>, id: int): (r: seq<Book>)
    ensures IndexOfId(s, id).None? ==> r == s
    ensures IndexOfId(s, id).Some? ==>
      |r| == |s| - 1 &&
      (forall i :: 0 <= i < IndexOfId(s, id).value ==> r[i] == s[i]) &&
      (forall i :: IndexOfId(s, id).value <= i < |r| ==> r[i] == s[i + 1])
  {
    match IndexOfId(s, id)
    case None => s
    case Some(k) => s[..k] + s[k + 1..]
  }

  /** Deleting removes one occurrence of one entry, and nothing else. */
  lemma {:induction false} DeleteFirstRemovesOne(s: seq<Book>, id: int)
    requires IndexOfId(s, id).Some?
    ensures multiset(DeleteFirst(s, id)) + multiset{s[IndexOfId(s, id).value]} == multiset(s)
  {
    var k := IndexOfId(s, id).value;
    assert s == s[..k] + [s[k]] + s[k + 1..];
  }

  lemma DeleteKeepsIdsIncreasing(s: seq<Book>, id: int)
    requires IdsIncreasing(s)
    ensures IdsIncreasing(DeleteFirst(s, id))
  {
  }

  lemma DeleteKeepsWellFormed(s: seq<Book>, id: int)
    requires AllWellFormed(s)
    ensures AllWellFormed(DeleteFirst(s, id))
  {
  }

  /** With ids in increasing order, a deleted id is not found any more. */
  lemma DeleteThenLookupFails(s: seq<Book>, id: int)
    requires IdsIncreasing(s)
    ensures FirstWithId(DeleteFirst(s, id), id) == None
  {
  }

  /** Deleting one id does not change what a lookup of another id finds. */
  lemma DeleteKeepsOtherLookups(s: seq<Book>, id: int, other: int)
    requires other != id
    ensures FirstWithId(DeleteFirst(s, id), other) == FirstWithId(s, other)
  {
    var r := DeleteFirst(s, id);
    if IndexOfId(s, id).Some? {
      var k := IndexOfId(s, id).value;
      if IndexOfId(s, other).Some? {
        var p := IndexOfId(s, other).value;
        var q := if p < k then p else p - 1;
        assert r[q] == s[p];
        forall i | 0 <= i < q ensures r[i].id != other {
          if i >= k { assert r[i] == s[i + 1]; }
        }
        assert IndexOfId(r, other) == Some(q);
      } else {
        forall i | 0 <= i < |r| ensures r[i].id != other {
          if i >= k { assert r[i] == s[i + 1]; }
        }
      }
    }
  }
}
