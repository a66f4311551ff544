/**
 * The persisted records (entities) and their wire shapes (DTOs).
 * Every reference-typed field of the Java classes may be null, so each is an Option.
 */
module Entities {
  import opened Wrappers

  /** An author row: `id` is the store's surrogate key (a Java Long), `age` a Java Integer. */
  datatype Author = Author(id: Option<int>, name: Option<string>, age: Option<int>)

  /** A book row: `isbn` is the natural key supplied by the caller. */
  datatype Book = Book(isbn: Option<string>, title: Option<string>, author: Option<Author>)

  datatype AuthorDto = AuthorDto(id: Option<int>, name: Option<string>, age: Option<int>)

  datatype BookDto = BookDto(isbn: Option<string>, title: Option<string>, author: Option<AuthorDto>)

  // The mappers copy field by field; nothing is validated or defaulted.

  function AuthorToDto(a: Author): AuthorDto {
    AuthorDto(a.id, a.name, a.age)
  }

  function AuthorFromDto(d: AuthorDto): Author {
    Author(d.id, d.name, d.age)
  }

  function BookToDto(b: Book): BookDto {
    BookDto(b.isbn, b.title, match b.author case None => None case Some(a) => Some(AuthorToDto(a)))
  }

  function BookFromDto(d: BookDto): Book {
    Book(d.isbn, d.title, match d.author case None => None case Some(a) => Some(AuthorFromDto(a)))
  }
}
