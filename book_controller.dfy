/**
 * The HTTP layer over the book service: which service calls each verb makes and
 * which status code it answers with.
 */
module BookControllers {
  import opened Wrappers
  import opened Entities
  import opened BookServices

  /** The HTTP statuses the controller answers with: 200, 201, 204 and 404. */
  datatype Status = Ok200 | Created201 | NoContent204 | NotFound404

  /** A response entity: a status and, for some statuses, a book in wire shape. */
  datatype Response = Response(status: Status, body: Option<BookDto>)

  /** A page of books mapped element by element to their wire shape. */
  function ToDtos(books: seq<Book>): (dtos: seq<BookDto>)
    ensures |dtos| == |books|
    ensures forall i | 0 <= i < |books| :: dtos[i] == BookToDto(books[i])
  {
    if books == [] then [] else [BookToDto(books[0])] + ToDtos(books[1..])
  }

  class BookController {
    const bookService: BookService

    ghost predicate Valid()
      reads this, bookService
    {
      bookService.Valid()
    }

    constructor (bookService: BookService)
      requires bookService.Valid()
      ensures Valid() && this.bookService == bookService
    {
      this.bookService := bookService;
    }

    /**
     * PUT /books/{isbn}: upserts the book and answers 200 when the ISBN was already
     * stored before the call, 201 when it was not, with the saved book in either case.
     */
    method CreateUpdateBook(isbn: string, bookDto: BookDto) returns (response: Response)
      requires Valid()
      modifies bookService
      ensures Valid()
      ensures bookService.rows == Upsert(old(bookService.rows), isbn, BookFromDto(bookDto))
      ensures response.status == if isbn in old(bookService.rows) then Ok200 else Created201
      ensures response.body == Some(BookToDto(bookService.rows[isbn]))
      ensures response.body.value.isbn == Some(isbn) && response.body.value.title == bookDto.title
    {
      var bookEntity := BookFromDto(bookDto);
      var bookExists := bookService.IsExists(isbn);
      var savedBookEntity := bookService.CreateUpdateBook(isbn, bookEntity);
      var savedUpdatedBookDto := BookToDto(savedBookEntity);
      if bookExists {
        response := Response(Ok200, Some(savedUpdatedBookDto));
      } else {
        response := Response(Created201, Some(savedUpdatedBookDto));
      }
    }

    /** GET /books: every stored book once, mapped to its wire shape, in the service's order. */
    method ListBooks() returns (page: seq<BookDto>)
      requires Valid()
      ensures |page| == |bookService.rows|
      ensures forall i | 0 <= i < |page| ::
        page[i].isbn.Some? && page[i].isbn.value in bookService.rows
        && page[i] == BookToDto(bookService.rows[page[i].isbn.value])
      ensures forall isbn | isbn in bookService.rows :: BookToDto(bookService.rows[isbn]) in page
      ensures forall i, j | 0 <= i < j < |page| :: page[i].isbn != page[j].isbn
    {
      var books := bookService.FindAll();
      page := ToDtos(books);
      forall isbn | isbn in bookService.rows
        ensures BookToDto(bookService.rows[isbn]) in page
      {
        var i :| 0 <= i < |books| && books[i] == bookService.rows[isbn];
        assert page[i] == BookToDto(books[i]);
      }
    }

    /** GET /books/{isbn}: 200 with the stored book, or 404 with no body; the store is only read. */
    method GetBook(isbn: string) returns (response: Response)
      requires Valid()
      ensures isbn in bookService.rows ==> response == Response(Ok200, Some(BookToDto(bookService.rows[isbn])))
      ensures isbn !in bookService.rows ==> response == Response(NotFound404, None)
    {
      var foundBook := bookService.FindOne(isbn);
      match foundBook {
        case Some(bookEntity) =>
          response := Response(Ok200, Some(BookToDto(bookEntity)));
        case None =>
          response := Response(NotFound404, None);
      }
    }

    /**
     * PATCH /books/{isbn}: 404 with no body and no service write when the ISBN is not
     * stored; otherwise 200 with what the service's partial update returned.
     */
    method PartialUpdateBook(isbn: string, bookDto: BookDto) returns (response: Response)
      requires Valid()
      modifies bookService
      ensures Valid()
      ensures isbn !in old(bookService.rows) ==>
        response == Response(NotFound404, None) && bookService.rows == old(bookService.rows)
      ensures isbn in old(bookService.rows) ==>
        isbn in bookService.rows && response == Response(Ok200, Some(BookToDto(bookService.rows[isbn])))
      ensures bookService.rows.Keys == old(bookService.rows).Keys
      ensures forall other | other in old(bookService.rows) && other != isbn ::
        bookService.rows[other] == old(bookService.rows)[other]
    {
      var bookExists := bookService.IsExists(isbn);
      if !bookExists {
        return Response(NotFound404, None);
      }
      var bookEntity := BookFromDto(bookDto);
      var updatedBookEntity := bookService.PartialUpdate(isbn, bookEntity);
      response := Response(Ok200, Some(BookToDto(updatedBookEntity)));
    }

    /**
     * DELETE /books/{isbn}: always 204 with no body, whether or not the ISBN was stored.
     * The table is what the service's delete leaves.
     */
    method DeleteBook(isbn: string) returns (response: Response)
      requires Valid()
      modifies bookService
      ensures Valid()
      ensures response == Response(NoContent204, None)
      ensures bookService.rows == old(bookService.rows) - {isbn}
    {
      bookService.Delete(isbn);
      response := Response(NoContent204, None);
    }
  }

  /**
   * The book scenario of the integration tests, on an empty store: a first PUT creates,
   * a second PUT to the same ISBN replaces, GET returns the replacement, GET of an ISBN
   * never written is 404, and DELETE of it is still 204.
   */
  method BookScenario() returns (created: Response, updated: Response, fetched: Response, missing: Response, deleted: Response)
    ensures created == Response(Created201, Some(BookDto(Some("978-1-2345-6789-0"), Some("The Shadow in the Attic"), None)))
    ensures updated == Response(Ok200, Some(BookDto(Some("978-1-2345-6789-0"), Some("UPDATED"), None)))
    ensures fetched == updated
    ensures missing == Response(NotFound404, None)
    ensures deleted == Response(NoContent204, None)
  {
    var service := new BookService();
    var controller := new BookController(service);
    var isbn := "978-1-2345-6789-0";
    created := controller.CreateUpdateBook(isbn, BookDto(Some(isbn), Some("The Shadow in the Attic"), None));
    updated := controller.CreateUpdateBook(isbn, BookDto(Some(isbn), Some("UPDATED"), None));
    fetched := controller.GetBook(isbn);
    missing := controller.GetBook("978-0-0000-0000-0");
    deleted := controller.DeleteBook("978-0-0000-0000-0");
  }
}
