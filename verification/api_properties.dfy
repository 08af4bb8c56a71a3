/** Properties relating several endpoint calls: what a cache hit depends on,
    repeated listings, duplicate rejection across two creates, and the cache
    coherence every sequential run of requests keeps. */
module ApiProperties {
  import opened Wrappers
  import opened CacheKeys
  import opened Paging
  import opened Catalog
  import opened ListingCache
  import opened LivrosApi

  /** A request to one of the four book endpoints; only the listing reads the clock. */
  datatype Request =
    | ListBooks(page: int, limit: int, now: int)
    | CreateBook(book: Book)
    | UpdateBook(id: int, book: Book)
    | DeleteBook(id: int)

  function Handle(st: State, req: Request): Step {
    match req
    case ListBooks(page, limit, now) => List(st, page, limit, now)
    case CreateBook(book) => Create(st, book)
    case UpdateBook(id, book) => Update(st, id, book)
    case DeleteBook(id) => Delete(st, id)
  }

  /** The state after serving the requests one after the other. */
  function Run(st: State, reqs: seq<Request>): State
    decreases |reqs|
  {
    if reqs == [] then st else Run(Handle(st, reqs[0]).state, reqs[1..])
  }

  /** Every cached listing, live or not, is what the table would answer now. */
  ghost predicate Coherent(st: State) {
    forall page, limit ::
      page >= 1 && limit >= 1 && ListingKey(page, limit) in st.cache ==>
        st.cache[ListingKey(page, limit)].value == Query(st.store, page, limit)
  }

  /** On a live hit the reply depends on the cache alone: any other table
      gives the same reply, and the table is left as it was. */
  lemma HitIgnoresStore(st: State, other: Store, page: int, limit: int, now: int)
    requires page >= 1 && limit >= 1
    requires Get(st.cache, ListingKey(page, limit), now).Some?
    ensures List(State(other, st.cache), page, limit, now) == Step(State(other, st.cache), List(st, page, limit, now).outcome)
  {
  }

  /** A miss on a page inside the table makes the same listing, asked again
      before the entry expires, a hit with the identical reply. */
  lemma RepeatedListIsHit(st: State, page: int, limit: int, now: int, later: int)
    requires page >= 1 && limit >= 1
    requires Valid(st.store) && Offset(page, limit) < |st.store.books|
    requires Get(st.cache, ListingKey(page, limit), now).None?
    requires now <= later < now + Ttl
    ensures var first := List(st, page, limit, now);
            List(first.state, page, limit, later) == Step(first.state, first.outcome)
  {
    EmptyPageIffPastEnd(st.store, page, limit);
  }

  /** In a valid table a page is empty exactly when its offset reaches the
      row count. */
  lemma EmptyPageIffPastEnd(s: Store, page: int, limit: int)
    requires Valid(s) && page >= 1 && limit >= 1
    ensures Query(s, page, limit).NoBooks? <==> Offset(page, limit) >= |s.books|
  {
    ListingIsTheTable(s);
  }

  /** A non-empty page of a valid table holds stored records, in ascending id order. */
  lemma PageRowsAreStored(s: Store, page: int, limit: int)
    requires Valid(s) && page >= 1 && limit >= 1
    ensures var r := Query(s, page, limit);
            r.Page? ==>
              && (forall i :: 0 <= i < |r.rows| ==> r.rows[i].id in s.books && s.books[r.rows[i].id] == r.rows[i].book)
              && (forall i, j :: 0 <= i < j < |r.rows| ==> r.rows[i].id < r.rows[j].id)
  {
    var r := Query(s, page, limit);
    if r.Page? {
      var off := Offset(page, limit);
      assert r.rows == Listing(s)[off..off + |r.rows|];
    }
  }

  /** A create, update or delete leaves the cache coherent whatever it held:
      the purge removed every listing. */
  lemma PurgedIsCoherent(store: Store, c: Cache<Response>)
    ensures Coherent(State(store, PurgeListings(c)))
  {
  }

  /** In a coherent state, hit or miss, a listing answers what the table holds. */
  lemma CoherentListAnswersFromStore(st: State, page: int, limit: int, now: int)
    requires Coherent(st) && page >= 1 && limit >= 1
    ensures List(st, page, limit, now).outcome == Listed(Query(st.store, page, limit))
  {
  }

  /** A listing that fills the cache writes what the table answers under its
      own key only, so no other cached listing changes meaning. */
  lemma ListKeepsCoherent(st: State, page: int, limit: int, now: int)
    requires Coherent(st)
    ensures Coherent(List(st, page, limit, now).state)
  {
    var next := List(st, page, limit, now).state;
    if page >= 1 && limit >= 1 && next != st {
      forall p, l | p >= 1 && l >= 1 && ListingKey(p, l) in next.cache
        ensures next.cache[ListingKey(p, l)].value == Query(next.store, p, l)
      {
        ListingKeyInjective(p, l, page, limit);
      }
    }
  }

  lemma HandleKeepsInvariant(st: State, req: Request)
    requires Valid(st.store) && Coherent(st)
    ensures Valid(Handle(st, req).state.store) && Coherent(Handle(st, req).state)
  {
    match req
    case ListBooks(page, limit, now) =>
      ListKeepsCoherent(st, page, limit, now);
    case CreateBook(book) =>
      PurgedIsCoherent(Create(st, book).state.store, st.cache);
    case UpdateBook(id, book) =>
      PurgedIsCoherent(Update(st, id, book).state.store, st.cache);
    case DeleteBook(id) =>
      PurgedIsCoherent(Delete(st, id).state.store, st.cache);
  }

  /** Served one at a time, no sequence of requests breaks the table's
      invariant or lets the cache disagree with the table. */
  lemma {:induction false} RunKeepsInvariant(st: State, reqs: seq<Request>)
    requires Valid(st.store) && Coherent(st)
    ensures Valid(Run(st, reqs).store) && Coherent(Run(st, reqs))
    decreases |reqs|
  {
    if reqs != [] {
      HandleKeepsInvariant(st, reqs[0]);
      RunKeepsInvariant(Handle(st, reqs[0]).state, reqs[1..]);
    }
  }

  /** From any valid table (the database file outlives restarts) and a cache
      holding no listing, after any sequence of requests every listing
      reflects the most recent mutation. */
  lemma ListingNeverStale(store: Store, c: Cache<Response>, reqs: seq<Request>, page: int, limit: int, now: int)
    requires Valid(store)
    requires forall k :: k in c ==> !IsListingKey(k)
    requires page >= 1 && limit >= 1
    ensures var st := Run(State(store, c), reqs);
            List(st, page, limit, now).outcome == Listed(Query(st.store, page, limit))
  {
    PurgedIsCoherent(store, c);
    RunKeepsInvariant(State(store, c), reqs);
    CoherentListAnswersFromStore(Run(State(store, c), reqs), page, limit, now);
  }

  /** A created book is visible to the very next listing: it is the last row
      of the table's listing, and a non-empty page counts it in its total. */
  lemma CreateThenListSeesBook(st: State, book: Book, page: int, limit: int, now: int)
    requires Valid(st.store) && page >= 1 && limit >= 1
    requires !HasDuplicate(st.store, book.title, book.author)
    ensures var after := Create(st, book).state;
            && Listing(after.store) == Listing(st.store) + [Row(st.store.nextId, book)]
            && List(after, page, limit, now).outcome == Listed(Query(after.store, page, limit))
            && (Query(after.store, page, limit).Page? ==> Query(after.store, page, limit).total == |st.store.books| + 1)
  {
    var after := Create(st, book).state;
    assert after.store == Store(st.store.books[st.store.nextId := book], st.store.nextId + 1);
    ListingAfterInsert(st.store, book);
    PurgedIsCoherent(after.store, st.cache);
    CoherentListAnswersFromStore(after, page, limit, now);
  }

  /** Creating the same title and author twice: the second create fails and
      the table holds exactly one such record. */
  lemma CreateTwiceRejected(st: State, book: Book, again: Book)
    requires Valid(st.store)
    requires !HasDuplicate(st.store, book.title, book.author)
    requires again.title == book.title && again.author == book.author
    ensures var first := Create(st, book).state;
            && Create(first, again) == Step(first, Failed(DuplicateBook))
            && Matches(first.store, book.title, book.author) == {st.store.nextId}
  {
    var first := Create(st, book).state;
    assert st.store.nextId in Matches(first.store, book.title, book.author);
  }

  /** The title-and-author check guards only create: an update may give a
      book the title and author of another one, and both stay stored. */
  lemma UpdateMayDuplicate()
    ensures var st := State(Store(map[1 := Book("A", "B", 2000), 2 := Book("C", "D", 2001)], 3), map[]);
            var r := Update(st, 2, Book("A", "B", 1999));
            r.outcome == Updated && Matches(r.state.store, "A", "B") == {1, 2}
  {
    var st := State(Store(map[1 := Book("A", "B", 2000), 2 := Book("C", "D", 2001)], 3), map[]);
    var r := Update(st, 2, Book("A", "B", 1999));
    assert 1 in Matches(r.state.store, "A", "B") && 2 in Matches(r.state.store, "A", "B");
  }
}
