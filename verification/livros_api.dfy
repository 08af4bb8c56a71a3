/** The book endpoints of livrosapi.py as transitions of an explicit state
    (the table and the Redis cache). Each endpoint is a pure function from the
    state before the call to the state after it and the call's outcome.
    Successful mutations, which the source signals by raising an HTTP
    exception with status 201, 200 or 204, are ordinary outcomes here. */
module LivrosApi {
  import opened Wrappers
  import opened CacheKeys
  import opened Paging
  import opened Catalog
  import opened ListingCache

  /** The body of a listing reply (livrosapi.py:106 and livrosapi.py:110-115). */
  datatype Response =
    | Page(page: int, limit: int, total: nat, rows: seq<Row>)
    | NoBooks

  datatype Failure = InvalidPagination | DuplicateBook | BookNotFound

  datatype Outcome =
    | Listed(response: Response)
    | Created
    | Updated
    | Deleted
    | Failed(failure: Failure)

  /** The HTTP status each outcome is reported with. */
  function StatusCode(o: Outcome): (code: int)
    ensures o.Failed? ==> 400 <= code < 500
    ensures !o.Failed? ==> code in {200, 201, 204}
    ensures code == 404 <==> o == Failed(BookNotFound)
    ensures code == 400 <==> o == Failed(InvalidPagination) || o == Failed(DuplicateBook)
    ensures o == Created <==> code == 201
    ensures o == Deleted <==> code == 204
  {
    match o
    case Listed(_) => 200
    case Created => 201
    case Updated => 200
    case Deleted => 204
    case Failed(InvalidPagination) => 400
    case Failed(DuplicateBook) => 400
    case Failed(BookNotFound) => 404
  }

  datatype State = State(store: Store, cache: Cache<Response>)

  datatype Step = Step(state: State, outcome: Outcome)

  /** What a cache miss computes from the table: the page's rows and the
      row count, or the "no books" reply when the page is empty. */
  function Query(s: Store, page: int, limit: int): (r: Response)
    requires page >= 1 && limit >= 1
    ensures r.NoBooks? <==> Offset(page, limit) >= |Listing(s)|
    ensures r.Page? ==> r.page == page && r.limit == limit && r.total == |s.books|
    ensures r.Page? ==> 1 <= |r.rows| <= limit && Offset(page, limit) + |r.rows| <= |Listing(s)|
    ensures r.Page? ==> |r.rows| == Min(limit, |Listing(s)| - Offset(page, limit))
    ensures r.Page? ==> forall i :: 0 <= i < |r.rows| ==> r.rows[i] == Listing(s)[Offset(page, limit) + i]
  {
    var rows := Window(Listing(s), Offset(page, limit), limit);
    if rows == [] then NoBooks else Page(page, limit, |s.books|, rows)
  }

  /** `get_livros`: validate the pagination, answer from the cache when the
      key is live, otherwise query the table and cache a non-empty page. */
  function List(st: State, page: int, limit: int, now: int): (r: Step)
    ensures page < 1 || limit < 1 ==> r == Step(st, Failed(InvalidPagination))
    ensures page >= 1 && limit >= 1 ==> r.outcome.Listed? && r.state.store == st.store
    ensures page >= 1 && limit >= 1 && Get(st.cache, ListingKey(page, limit), now).Some? ==>
              r == Step(st, Listed(Get(st.cache, ListingKey(page, limit), now).value))
    ensures page >= 1 && limit >= 1 && Get(st.cache, ListingKey(page, limit), now).None? ==>
              && r.outcome == Listed(Query(st.store, page, limit))
              && (r.outcome.response.NoBooks? ==> r.state.cache == st.cache)
              && (r.outcome.response.Page? ==>
                    && r.state.cache.Keys == st.cache.Keys + {ListingKey(page, limit)}
                    && r.state.cache[ListingKey(page, limit)] == Entry(r.outcome.response, now + Ttl)
                    && forall k :: k in st.cache && k != ListingKey(page, limit) ==> r.state.cache[k] == st.cache[k])
  {
    if page < 1 || limit < 1 then Step(st, Failed(InvalidPagination))
    else
      match Get(st.cache, ListingKey(page, limit), now)
      case Some(cached) => Step(st, Listed(cached))
      case None =>
        var resp := Query(st.store, page, limit);
        if resp.NoBooks? then Step(st, Listed(resp))
        else Step(State(st.store, SaveListing(st.cache, page, limit, resp, now)), Listed(resp))
  }

  /** `post_livros`: reject a book whose title and author are already
      stored; otherwise store it under a fresh id and purge the listings. */
  function Create(st: State, book: Book): (r: Step)
    ensures HasDuplicate(st.store, book.title, book.author) ==> r == Step(st, Failed(DuplicateBook))
    ensures !HasDuplicate(st.store, book.title, book.author) ==>
              && r.outcome == Created
              && r.state.cache == PurgeListings(st.cache)
              && r.state.store.books.Keys == st.store.books.Keys + {st.store.nextId}
              && r.state.store.books[st.store.nextId] == book
    ensures !HasDuplicate(st.store, book.title, book.author) && Valid(st.store) ==>
              && st.store.nextId !in st.store.books
              && (forall id :: id in st.store.books ==> r.state.store.books[id] == st.store.books[id])
              && |r.state.store.books| == |st.store.books| + 1
    ensures Valid(st.store) ==> Valid(r.state.store)
  {
    if HasDuplicate(st.store, book.title, book.author) then Step(st, Failed(DuplicateBook))
    else
      var id := st.store.nextId;
      var store := Store(st.store.books[id := book], id + 1);
      Step(State(store, PurgeListings(st.cache)), Created)
  }

  /** `put_livros`: overwrite the three fields of an existing book (the id is
      kept, and no duplicate test is made) and purge the listings. */
  function Update(st: State, id: int, book: Book): (r: Step)
    ensures id !in st.store.books ==> r == Step(st, Failed(BookNotFound))
    ensures id in st.store.books ==>
              && r.outcome == Updated
              && r.state.cache == PurgeListings(st.cache)
              && r.state.store.nextId == st.store.nextId
              && r.state.store.books.Keys == st.store.books.Keys
              && r.state.store.books[id] == book
              && forall other :: other in st.store.books && other != id ==> r.state.store.books[other] == st.store.books[other]
    ensures Valid(st.store) ==> Valid(r.state.store)
  {
    if id !in st.store.books then Step(st, Failed(BookNotFound))
    else
      var store := Store(st.store.books[id := book], st.store.nextId);
      Step(State(store, PurgeListings(st.cache)), Updated)
  }

  /** `delete_livro`: remove an existing book and purge the listings. */
  function Delete(st: State, id: int): (r: Step)
    ensures id !in st.store.books ==> r == Step(st, Failed(BookNotFound))
    ensures id in st.store.books ==>
              && r.outcome == Deleted
              && r.state.cache == PurgeListings(st.cache)
              && r.state.store.nextId == st.store.nextId
              && r.state.store.books.Keys == st.store.books.Keys - {id}
              && forall other :: other in r.state.store.books ==> r.state.store.books[other] == st.store.books[other]
    ensures Valid(st.store) ==> Valid(r.state.store)
  {
    if id !in st.store.books then Step(st, Failed(BookNotFound))
    else
      var store := Store(st.store.books - {id}, st.store.nextId);
      Step(State(store, PurgeListings(st.cache)), Deleted)
  }
}
