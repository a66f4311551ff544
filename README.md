# simpleLib catalog service — a Dafny model of its resource semantics

simpleLib is a small Spring CRUD service for a library catalog. It keeps two kinds of
records in a relational store: authors, keyed by a numeric id that the store generates,
and books, keyed by their ISBN, which the caller supplies. This project models the part
of it that carries meaning beyond plumbing:

- the author service (`AuthorServiceImpl`): save with fresh-id assignment, lookups,
  delete, and the existence-gated partial update that copies only the non-null fields of
  the patch onto the stored author;
- the book service (`BookServiceImpl`): the unconditional upsert `createUpdateBook`,
  whose ISBN always comes from the request path, and its lookups;
- the book controller (`BookController`): which service calls each HTTP verb makes and
  which status it answers with (200, 201, 204 or 404).

Each store is a class holding a finite map from key to record (`rows`), with the
invariant that every record carries the key it is stored under. Records are datatypes
whose nullable Java fields are `Option`s. The effect of each write is stated as the new
map in terms of the old one, through the specification functions `Merge`/`PatchedRows`
(author partial update) and `Pin`/`Upsert` (book upsert). The lemmas about those
functions state the promised properties: merge idempotence, null fields never erasing,
last-write-wins and the frame conditions.

Files:
- `wrappers.dfy`: `Option` for nullable values and `Result` for calls that throw.
- `entities.dfy`: the author and book records, their DTOs, and the field-copy mappers.
- `repository.dfy`: what the services need from the store beyond map lookup and update.
  This is reading every row once (the `findAll` iteration) and the existence of a fresh id.
- `author_service.dfy`, `book_service.dfy`, `book_controller.dfy`: one module per core file.

Gaps in the code itself, and how the model treats them:
- `src/main/java/com/ad/simpleLib/services/BookService.java:18-20` declares `partialUpdate` and `delete`.
  `BookServiceImpl` implements neither.
  - `partialUpdate` gets only what the controller's PATCH relies on: the entry stays, it carries
    the path ISBN, and no other entry changes. No merge or replace rule is stated, and the
    model's body leaves the entry as it was.
  - `delete` is assumed from the interface method's name to remove the ISBN. This mirrors the
    author service's delete. The controller's DELETE answers 204 whatever the service does.
- `BookController.listBooks` calls `findAll(pageable)`, which `BookService` does not declare.
  The model calls the declared `findAll()` and leaves paging out.

## Model

| member | source | states |
|---|---|---|
| Repository.ListRows | src/main/java/com/ad/simpleLib/services/impl/BookServiceImpl.java:35 | reading the table back yields every stored key exactly once, each paired with the row stored under it, so the list has as many entries as the table |
| Repository.IdBound | src/main/java/com/ad/simpleLib/services/impl/AuthorServiceImpl.java:24-26 | there is a number above every id in the table, so an id not in the table always exists for the store to hand out |
| AuthorServices.MergeFields | src/main/java/com/ad/simpleLib/services/impl/AuthorServiceImpl.java:47-49 | the merged author keeps the stored id; its name is the patch name when non-null and the stored name otherwise; the same holds for age |
| AuthorServices.MergeNeverErases | src/main/java/com/ad/simpleLib/services/impl/AuthorServiceImpl.java:48-49 | a partial update never turns a set name or age into null |
| AuthorServices.MergeEmptyPatch | src/main/java/com/ad/simpleLib/services/impl/AuthorServiceImpl.java:48-49 | a patch whose name and age are both null leaves the stored author unchanged |
| AuthorServices.MergeIdempotent | src/main/java/com/ad/simpleLib/services/impl/AuthorServiceImpl.java:48-49 | merging the same patch a second time changes nothing more |
| AuthorServices.PatchedRowsIdempotent | src/main/java/com/ad/simpleLib/services/impl/AuthorServiceImpl.java:47-50 | applying a partial update twice leaves the same table as applying it once; it keeps the key set and every other id's author |
| AuthorServices.PatchedRowsKeyed | src/main/java/com/ad/simpleLib/services/impl/AuthorServiceImpl.java:45-50 | after a partial update every author is still stored under its own id |
| AuthorServices.AuthorService.Save | src/main/java/com/ad/simpleLib/services/impl/AuthorServiceImpl.java:23-26 | an author without an id is stored under an id absent from the table before; one with an id is stored under that id; name and age are kept, the returned author is the stored one, and no other entry changes |
| AuthorServices.AuthorService.FindAll | src/main/java/com/ad/simpleLib/services/impl/AuthorServiceImpl.java:28-31 | returns exactly the stored authors, one per id, as many as the table holds |
| AuthorServices.AuthorService.FindOne | src/main/java/com/ad/simpleLib/services/impl/AuthorServiceImpl.java:33-36 | finds an author exactly when the id is stored, and then the stored author, whose id is the one asked for |
| AuthorServices.AuthorService.IsExists | src/main/java/com/ad/simpleLib/services/impl/AuthorServiceImpl.java:38-41 | true exactly when FindOne finds an author |
| AuthorServices.AuthorService.PartialUpdate | src/main/java/com/ad/simpleLib/services/impl/AuthorServiceImpl.java:43-52 | an absent id fails with "Author does not exist" and leaves the table unchanged; a present id gets the merged author, name and age each from the patch when non-null, else kept; the result is the stored author; keys and all other entries are unchanged |
| AuthorServices.AuthorService.Delete | src/main/java/com/ad/simpleLib/services/impl/AuthorServiceImpl.java:54-57 | the id is no longer stored; every other entry is unchanged; an absent id is no error |
| AuthorServices.AuthorScenario | src/test/java/com/ad/simpleLib/controllers/AuthorControllerIntegrationTests.java:51-63 | on an empty store, saving Agatha Christie, 80 without an id gives an id under which the same name and age are found; no other id finds anything; a name-only patch keeps the age 80; patching an absent id fails |
| BookServices.UpsertStores | src/main/java/com/ad/simpleLib/services/impl/BookServiceImpl.java:27-29 | after an upsert the path ISBN holds the submitted title and author under the path ISBN, whatever the payload's ISBN was; the key set gains at most that ISBN |
| BookServices.UpsertFrame | src/main/java/com/ad/simpleLib/services/impl/BookServiceImpl.java:29 | an upsert leaves every other ISBN's presence and entry as they were |
| BookServices.UpsertIdempotent | src/main/java/com/ad/simpleLib/services/impl/BookServiceImpl.java:27-29 | two identical upserts leave the same table as one |
| BookServices.UpsertLastWriteWins | src/test/java/com/ad/simpleLib/controllers/BookControllerIntegrationTests.java:144-163 | a second upsert to the same ISBN replaces the first entirely: nothing of the earlier payload survives |
| BookServices.UpsertKeyed | src/main/java/com/ad/simpleLib/services/impl/BookServiceImpl.java:28-29 | after an upsert every book is still stored under its own ISBN |
| BookServices.BookService.CreateUpdateBook | src/main/java/com/ad/simpleLib/services/impl/BookServiceImpl.java:26-30 | the new table is the upsert of the payload pinned to the path ISBN; the returned book is the stored one, with the path ISBN and the payload's title and author |
| BookServices.BookService.FindAll | src/main/java/com/ad/simpleLib/services/impl/BookServiceImpl.java:33-36 | returns exactly the stored books, one per ISBN, as many as the table holds |
| BookServices.BookService.FindOne | src/main/java/com/ad/simpleLib/services/impl/BookServiceImpl.java:39-42 | finds a book exactly when the ISBN is stored, and then the stored book, whose ISBN is the one asked for |
| BookServices.BookService.IsExists | src/main/java/com/ad/simpleLib/services/impl/BookServiceImpl.java:45-48 | true exactly when FindOne finds a book |
| BookServices.BookService.PartialUpdate | src/main/java/com/ad/simpleLib/services/BookService.java:18 | on a stored ISBN, the entry stays and carries that ISBN; the result is the stored book; no other entry changes; no merge or replace rule |
| BookServices.BookService.Delete | src/main/java/com/ad/simpleLib/services/BookService.java:20 | the ISBN is no longer stored; every other entry is unchanged; an absent ISBN is no error |
| BookControllers.ToDtos | src/main/java/com/ad/simpleLib/controllers/BookController.java:49 | the page of DTOs has the length of the page of books, and each DTO is the mapping of the book at the same position |
| BookControllers.BookController.CreateUpdateBook | src/main/java/com/ad/simpleLib/controllers/BookController.java:33-44 | the status is 200 when the ISBN was stored before the write and 201 when it was not; the body is the mapped stored book, whose ISBN is the path ISBN and whose title is the payload's; the table is the upsert |
| BookControllers.BookController.ListBooks | src/main/java/com/ad/simpleLib/controllers/BookController.java:46-50 | one DTO per stored book, each the mapping of the book stored under its ISBN, every stored book present, no ISBN twice |
| BookControllers.BookController.GetBook | src/main/java/com/ad/simpleLib/controllers/BookController.java:52-59 | 200 with the mapped stored book when the ISBN is stored, 404 with no body otherwise; the method has no write permission on the store |
| BookControllers.BookController.PartialUpdateBook | src/main/java/com/ad/simpleLib/controllers/BookController.java:61-71 | an ISBN not stored gives 404 with no body and an unchanged table; a stored one gives 200 with the mapped result of the service's partial update; keys and other entries are unchanged either way |
| BookControllers.BookController.DeleteBook | src/main/java/com/ad/simpleLib/controllers/BookController.java:73-77 | always 204 with no body, whatever the table held; the table is then what the service's delete leaves, which removes the ISBN only by assumption (see Left out) |
| BookControllers.BookScenario | src/test/java/com/ad/simpleLib/controllers/BookControllerIntegrationTests.java:144-163 | on an empty store, the first PUT answers 201 with the submitted book, a second PUT to the same ISBN answers 200 with the new title, GET returns that, GET of an unknown ISBN answers 404 and DELETE of it 204 |

## Left out

- BookServices.BookService.PartialUpdate: the service interface declares it, but the implementation has none. Its contract promises only what the controller relies on: the entry stays, carries the path ISBN, and nothing else changes. It states no merge or replace rule, and its body leaves the stored entry as it was. Its requires, a stored ISBN, is what the only caller checks first.
- BookServices.BookService.Delete: the service interface declares it, but the implementation has none. Removal of the ISBN is assumed from the method's name, like the author service's delete, which removes the key and is not an error for an absent key. Nothing in the code does it.
- Paging: `findAll(pageable)` and `Page.map` become the whole table as one sequence. Page size, page number and sorting are not modelled.
- Order of `findAll`: the store's iteration order is not specified. The model visits the rows in an arbitrary order.
- Id generation: JPA generates ids. The model only picks an id not in the current table, arbitrarily. Numbering from 1 and sequences are not modelled. In particular, the model may hand out again the id of a deleted author; a JPA id generator never does.
- Integer widths: author ids (Java `Long`) and ages (Java `Integer`) are unbounded integers. Overflow of the id generator is not modelled.
- Saving an author whose id is set but not stored: the model writes it under that id. What the JPA provider actually does in that case (insert under a new id, or fail) is not modelled.
- Argument mutation: `partialUpdate` sets the id on the caller's patch object (AuthorServiceImpl.java:45). `createUpdateBook` sets the ISBN on the caller's book object (BookServiceImpl.java:28). Records are values in the model, so the caller does not see these changes. Aliasing between the caller's object and the stored one is not modelled.
- Exceptions: the author partial update throws a `RuntimeException` on a missing id. The model returns it as a `Result` error with the same message.
- Book–author link: in the code a book's author is a JPA relation to a row of the author table. The model stores in each book a snapshot of its author, with no link to the author table. Not modelled: the foreign key, a later author update showing through the book, writes that a book payload cascades into the author table, and what happens on deleting an author a book still references (the model's author delete always succeeds).
- Mappers (`BookMapper`, `AuthorMapperImpl`): reflection-based copies by ModelMapper. The model uses plain field-by-field copies between each record and its DTO and claims no property of them. The DTO and entity classes are not part of this model.
- Repositories: Spring Data interfaces, replaced by the map in each service. The unused queries `ageLessThan` and `findAuthorsWithAgeGreaterThan` (AuthorRepository.java:12-15) take their meaning from framework naming conventions and are not modelled.
- The author controller is not part of this model; its routes and status codes are not modelled.
- HTTP routing, JSON (de)serialisation, dependency injection, transactions and concurrent requests are left out. Each call is atomic and calls are sequential.
