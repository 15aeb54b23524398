/** The book catalogue: a flat table keyed by ISBN-13, read by two public
    GET endpoints and written only by the catalogue ingestion script's
    upsert. */
module Books {
  import opened Types
  import opened Db
  import Cardinality

  /** A book as the API shows it: its key and every column. */
  datatype BookView = BookView(
    isbn13: Isbn,
    title: string,
    author: string,
    publisher: string,
    cover: string,
    descriptions: string)

  function ViewOf(isbn: Isbn, b: Book): (v: BookView)
    ensures v.isbn13 == isbn && v.title == b.title
  {
    BookView(isbn, b.title, b.author, b.publisher, b.cover, b.descriptions)
  }

  /** The record a view was projected from, so that views and records
      correspond one to one. */
  function RecordOf(v: BookView): (b: Book)
    ensures ViewOf(v.isbn13, b) == v
  {
    Book(v.title, v.author, v.publisher, v.cover, v.descriptions)
  }

  /** GET /books/: every catalogue entry. The order is unspecified, so the
      response is a set. A read: the store is not touched. */
  function BookList(s: Store): (r: Outcome<set<BookView>>)
    ensures r.Ok?
  {
    Ok(set isbn | isbn in s.books :: ViewOf(isbn, s.books[isbn]))
  }

  /** GET /books/{isbn13}/: the entry whose key is `isbn`, or 404. */
  function BookDetail(s: Store, isbn: Isbn): (r: Outcome<BookView>)
    ensures r.Ok? || r.NotFound?
    ensures r.Ok? <==> isbn in s.books
    ensures r.Ok? ==> r.value.isbn13 == isbn && RecordOf(r.value) == s.books[isbn]
  {
    if isbn in s.books then Ok(ViewOf(isbn, s.books[isbn])) else NotFound
  }

  /** The list and the detail endpoint agree: a view is listed exactly when
      the detail endpoint returns it for its own key, and the list holds one
      entry per catalogue row. */
  lemma BookListMatchesDetail(s: Store)
    ensures forall v :: v in BookList(s).value <==> BookDetail(s, v.isbn13) == Ok(v)
    ensures |BookList(s).value| == |s.books|
  {
    var views := BookList(s).value;
    forall v | v in views
      ensures BookDetail(s, v.isbn13) == Ok(v)
    {
      var isbn :| isbn in s.books && v == ViewOf(isbn, s.books[isbn]);
    }
    forall v: BookView | BookDetail(s, v.isbn13) == Ok(v)
      ensures v in views
    {
      assert v == ViewOf(v.isbn13, s.books[v.isbn13]);
    }
    forall k | k in s.books
      ensures exists v :: v in views && v.isbn13 == k
    {
      assert ViewOf(k, s.books[k]) in views;
    }
    Cardinality.KeyedSameSize(s.books.Keys, views, (v: BookView) => v.isbn13);
  }

  /** The ingestion script's `update_or_create` keyed on ISBN-13: the row is
      created when the key is new and overwritten otherwise. `created`
      reports which. */
  function UpsertBook(s: Store, isbn: Isbn, fields: Book): (r: (bool, Store))
    ensures r.1.books.Keys == s.books.Keys + {isbn}
    ensures r.1.books[isbn] == fields
    ensures forall k :: k in s.books && k != isbn ==> r.1.books[k] == s.books[k]
    ensures r.0 <==> isbn !in s.books
    ensures r.1 == s.(books := r.1.books)
  {
    (isbn !in s.books, s.(books := s.books[isbn := fields]))
  }

  /** Upserting the same payload twice leaves the same single row as
      upserting it once, and an upsert keeps the store referentially intact
      (threads keep their book, since keys never change). */
  lemma UpsertIdempotent(s: Store, isbn: Isbn, fields: Book)
    ensures UpsertBook(UpsertBook(s, isbn, fields).1, isbn, fields).1 == UpsertBook(s, isbn, fields).1
    ensures !UpsertBook(UpsertBook(s, isbn, fields).1, isbn, fields).0
    ensures Valid(s) ==> Valid(UpsertBook(s, isbn, fields).1)
  {
    var s1 := UpsertBook(s, isbn, fields).1;
    if Valid(s) {
      forall t | t in s1.threads
        ensures ThreadWellFormed(s1, s1.threads[t])
      {
        assert ThreadWellFormed(s, s.threads[t]);
      }
      forall c | c in s1.comments
        ensures CommentWellFormed(s1, s1.comments[c])
      {
        assert CommentWellFormed(s, s.comments[c]);
      }
    }
  }
}
