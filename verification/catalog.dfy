/** The book table: the records of livrosapi.py:47-57 and the store that holds
    them, with auto-increment identity and the duplicate test used on create.
    The listing query has no ORDER BY (livrosapi.py:103); the model fixes the
    order as ascending id, the order in which an auto-increment table yields
    its rows when scanned. */
module Catalog {

  /** The request body `Livro`: title, author and year. */
  datatype Book = Book(title: string, author: string, year: int)

  /** One row of the `Livros` table (`LivroDB`): its id and its three fields. */
  datatype Row = Row(id: int, book: Book)

  /** The table: rows by id, and the next id the auto-increment will hand out. */
  datatype Store = Store(books: map<int, Book>, nextId: int)

  const EmptyStore: Store := Store(map[], 1)

  /** Every stored id was handed out by the counter: ids are positive and below it. */
  predicate Valid(s: Store) {
    && s.nextId >= 1
    && forall id :: id in s.books ==> 1 <= id < s.nextId
  }

  /** Ids of the stored records in `[lo, hi)`. */
  function IdsIn(books: map<int, Book>, lo: int, hi: int): set<int> {
    set id | id in books && lo <= id < hi
  }

  /** The stored records with ids in `[lo, hi)`, in ascending id order. */
  function RowsIn(books: map<int, Book>, lo: int, hi: int): (rows: seq<Row>)
    ensures forall i :: 0 <= i < |rows| ==> lo <= rows[i].id < hi
    ensures forall i :: 0 <= i < |rows| ==> rows[i].id in books && books[rows[i].id] == rows[i].book
    ensures forall i, j :: 0 <= i < j < |rows| ==> rows[i].id < rows[j].id
    decreases hi - lo
  {
    if lo >= hi then []
    else RowsIn(books, lo, hi - 1) + (if hi - 1 in books then [Row(hi - 1, books[hi - 1])] else [])
  }

  /** What `db.query(LivroDB)` enumerates: every record, ascending by id. */
  function Listing(s: Store): seq<Row> {
    RowsIn(s.books, 1, s.nextId)
  }

  /** Every stored record in the id range is listed. */
  lemma {:induction false} RowsInComplete(books: map<int, Book>, lo: int, hi: int, id: int)
    requires lo <= id < hi && id in books
    ensures Row(id, books[id]) in RowsIn(books, lo, hi)
    decreases hi - lo
  {
    if id < hi - 1 {
      RowsInComplete(books, lo, hi - 1, id);
    }
  }

  lemma {:induction false} RowsInSize(books: map<int, Book>, lo: int, hi: int)
    ensures |RowsIn(books, lo, hi)| == |IdsIn(books, lo, hi)|
    decreases hi - lo
  {
    if lo < hi {
      RowsInSize(books, lo, hi - 1);
      if hi - 1 in books {
        assert IdsIn(books, lo, hi) == IdsIn(books, lo, hi - 1) + {hi - 1};
      } else {
        assert IdsIn(books, lo, hi) == IdsIn(books, lo, hi - 1);
      }
    } else {
      assert IdsIn(books, lo, hi) == {};
    }
  }

  /** The listing of a valid store holds exactly its records, each once, in
      ascending id order; so the listing's length is the table's row count
      (the `count()` of livrosapi.py:108). */
  lemma ListingIsTheTable(s: Store)
    requires Valid(s)
    ensures |Listing(s)| == |s.books|
    ensures forall i :: 0 <= i < |Listing(s)| ==> Listing(s)[i].id in s.books && s.books[Listing(s)[i].id] == Listing(s)[i].book
    ensures forall i, j :: 0 <= i < j < |Listing(s)| ==> Listing(s)[i].id < Listing(s)[j].id
    ensures forall id :: id in s.books ==> Row(id, s.books[id]) in Listing(s)
  {
    RowsInSize(s.books, 1, s.nextId);
    assert IdsIn(s.books, 1, s.nextId) == s.books.Keys;
    forall id | id in s.books
      ensures Row(id, s.books[id]) in Listing(s)
    {
      RowsInComplete(s.books, 1, s.nextId, id);
    }
  }

  lemma {:induction false} RowsInFrame(b1: map<int, Book>, b2: map<int, Book>, lo: int, hi: int)
    requires forall id :: lo <= id < hi ==> (id in b1 <==> id in b2)
    requires forall id :: lo <= id < hi && id in b1 ==> b1[id] == b2[id]
    ensures RowsIn(b1, lo, hi) == RowsIn(b2, lo, hi)
    decreases hi - lo
  {
    if lo < hi {
      RowsInFrame(b1, b2, lo, hi - 1);
    }
  }

  /** Ids of the records whose title and author both equal the given ones
      (the filter of livrosapi.py:137). In a valid table these are the ids of
      exactly the rows the table scan yields with that title and author. */
  function Matches(s: Store, title: string, author: string): (ids: set<int>)
    ensures Valid(s) ==> ids == set r | r in Listing(s) && r.book.title == title && r.book.author == author :: r.id
  {
    var ids := set id | id in s.books && s.books[id].title == title && s.books[id].author == author;
    if Valid(s) then MatchesAreScannedRows(s, title, author, ids); ids else ids
  }

  lemma MatchesAreScannedRows(s: Store, title: string, author: string, ids: set<int>)
    requires Valid(s)
    requires ids == set id | id in s.books && s.books[id].title == title && s.books[id].author == author
    ensures ids == set r | r in Listing(s) && r.book.title == title && r.book.author == author :: r.id
  {
    ListingIsTheTable(s);
    var scanned := set r | r in Listing(s) && r.book.title == title && r.book.author == author :: r.id;
    forall id | id in ids
      ensures id in scanned
    {
      assert Row(id, s.books[id]) in Listing(s);
    }
    forall id | id in scanned
      ensures id in ids
    {
      var r :| r in Listing(s) && r.book.title == title && r.book.author == author && r.id == id;
      var i :| 0 <= i < |Listing(s)| && Listing(s)[i] == r;
    }
  }

  predicate HasDuplicate(s: Store, title: string, author: string) {
    Matches(s, title, author) != {}
  }

  /** A record stored under the next auto-increment id shows up at the end
      of the listing, after every existing record. */
  lemma ListingAfterInsert(s: Store, b: Book)
    requires Valid(s)
    ensures Listing(Store(s.books[s.nextId := b], s.nextId + 1)) == Listing(s) + [Row(s.nextId, b)]
  {
    RowsInFrame(s.books[s.nextId := b], s.books, 1, s.nextId);
  }
}
