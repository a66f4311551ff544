/**
 * The book service: a table of books keyed by ISBN, written by an unconditional
 * upsert whose ISBN comes from the request path.
 */
module BookServices {
  import opened Wrappers
  import opened Entities
  import Repository

  /** Every stored book carries the ISBN it is stored under. */
  ghost predicate KeyedByIsbn(rows: map<string, Book>) {
    forall isbn | isbn in rows :: rows[isbn].isbn == Some(isbn)
  }

  /** The book with its ISBN overwritten by the one from the path. */
  function Pin(book: Book, isbn: string): Book {
    book.(isbn := Some(isbn))
  }

  /** The table after `createUpdateBook(isbn, book)`. */
  function Upsert(rows: map<string, Book>, isbn: string, book: Book): map<string, Book> {
    rows[isbn := Pin(book, isbn)]
  }

  /**
   * After an upsert the path ISBN holds exactly the submitted book with that ISBN:
   * the title and author are the submitted ones, whatever was stored before,
   * and whatever ISBN the payload carried.
   */
  lemma UpsertStores(rows: map<string, Book>, isbn: string, book: Book)
    ensures isbn in Upsert(rows, isbn, book)
    ensures Upsert(rows, isbn, book)[isbn].isbn == Some(isbn)
    ensures Upsert(rows, isbn, book)[isbn].title == book.title
    ensures Upsert(rows, isbn, book)[isbn].author == book.author
    ensures Upsert(rows, isbn, book).Keys == rows.Keys + {isbn}
  {
  }

  /** An upsert leaves every other ISBN's entry as it was. */
  lemma UpsertFrame(rows: map<string, Book>, isbn: string, book: Book, other: string)
    requires other != isbn
    ensures other in Upsert(rows, isbn, book) <==> other in rows
    ensures other in rows ==> Upsert(rows, isbn, book)[other] == rows[other]
  {
  }

  /** Two identical upserts leave the same table as one. */
  lemma UpsertIdempotent(rows: map<string, Book>, isbn: string, book: Book)
    ensures Upsert(Upsert(rows, isbn, book), isbn, book) == Upsert(rows, isbn, book)
  {
  }

  /** The later of two upserts to one ISBN wins outright: nothing of the earlier payload survives. */
  lemma UpsertLastWriteWins(rows: map<string, Book>, isbn: string, first: Book, second: Book)
    ensures Upsert(Upsert(rows, isbn, first), isbn, second) == Upsert(rows, isbn, second)
  {
  }

  /** An upsert keeps every row keyed by its own ISBN. */
  lemma UpsertKeyed(rows: map<string, Book>, isbn: string, book: Book)
    requires KeyedByIsbn(rows)
    ensures KeyedByIsbn(Upsert(rows, isbn, book))
  {
  }

  class BookService {
    /** The book table of the store. */
    var rows: map<string, Book>

    ghost predicate Valid()
      reads this
    {
      KeyedByIsbn(rows)
    }

    constructor ()
      ensures Valid() && rows == map[]
    {
      rows := map[];
    }

    /** Pins the path ISBN onto the book and writes it, creating or replacing the entry. */
    method CreateUpdateBook(isbn: string, book: Book) returns (saved: Book)
      requires Valid()
      modifies this
      ensures Valid()
      ensures rows == Upsert(old(rows), isbn, book)
      ensures saved == rows[isbn]
      ensures saved.isbn == Some(isbn) && saved.title == book.title && saved.author == book.author
    {
      saved := Pin(book, isbn);
      rows := rows[isbn := saved];
    }

    /** Every stored book, once each, in the store's order. */
    method FindAll() returns (books: seq<Book>)
      requires Valid()
      ensures |books| == |rows|
      ensures forall i | 0 <= i < |books| ::
        books[i].isbn.Some? && books[i].isbn.value in rows && rows[books[i].isbn.value] == books[i]
      ensures forall isbn | isbn in rows :: rows[isbn] in books
      ensures forall i, j | 0 <= i < j < |books| :: books[i].isbn != books[j].isbn
    {
      var isbns, values := Repository.ListRows(rows);
      forall isbn | isbn in rows
        ensures rows[isbn] in values
      {
        var i :| 0 <= i < |isbns| && isbns[i] == isbn;
        assert values[i] == rows[isbn];
      }
      forall i | 0 <= i < |values|
        ensures values[i].isbn == Some(isbns[i])
      {
        var isbn := isbns[i];
        assert isbn in rows;
      }
      books := values;
    }

    /** The book stored under `isbn`, if any. */
    function FindOne(isbn: string): (found: Option<Book>)
      requires Valid()
      reads this
      ensures found.Some? <==> isbn in rows
      ensures found.Some? ==> found.value == rows[isbn] && found.value.isbn == Some(isbn)
    {
      if isbn in rows then Some(rows[isbn]) else None
    }

    /** Whether a book is stored under `isbn`: exactly when `FindOne(isbn)` finds one. */
    function IsExists(isbn: string): (present: bool)
      requires Valid()
      reads this
      ensures present <==> FindOne(isbn).Some?
    {
      isbn in rows
    }

    /**
     * Declared by the service interface but given no implementation. Its only caller
     * checks existence first; the contract promises no more than that caller relies on:
     * the entry stays, carries the path ISBN, and no other entry changes.
     */
    method PartialUpdate(isbn: string, book: Book) returns (saved: Book)
      requires Valid() && isbn in rows
      modifies this
      ensures Valid()
      ensures rows.Keys == old(rows).Keys
      ensures forall other | other in old(rows) && other != isbn :: rows[other] == old(rows)[other]
      ensures saved == rows[isbn] && saved.isbn == Some(isbn)
    {
      saved := rows[isbn];
    }

    /**
     * Declared by the service interface but given no implementation. Removal is assumed
     * from the method's name, as the author service's delete does it: the entry goes,
     * an absent ISBN is not an error.
     */
    method Delete(isbn: string)
      requires Valid()
      modifies this
      ensures Valid()
      ensures rows == old(rows) - {isbn}
      ensures isbn !in rows
      ensures forall other | other in old(rows) && other != isbn :: other in rows && rows[other] == old(rows)[other]
    {
      rows := rows - {isbn};
    }
  }
}
