# Library book management: the service layer in Dafny

This project models the service layer of a small library back end built on Spring:

- a catalogue of books with total and available copy counts and soft deletion;
- borrowers in two membership tiers, BASIC and PREMIUM, with a loan limit each;
- loans (borrow records), which take a copy out, bring it back, and charge a fine
  of 10 per day late.

The model covers the services and the repository queries they use:

- `BookService`: `createOrIncrease`, `list`, `update`, `softDelete`;
- `BorrowerService`: `create`, `getById`;
- `BorrowRecordService`: `borrow`, `returnBook`, `getActiveRecords`;
- the derived and JPQL queries of `BookRepository` and `BorrowRecordRepository`;
- the borrow limit of `Borrower`.

## Structure

| file | module | models |
|---|---|---|
| common.dfy | `Common` | nullable values (`Option`), the service exceptions (`Error`), results, Java `int` and its wrap-around |
| entities.dfy | `Entities` | the entities `Book`, `Borrower` and `BorrowRecord` as values; the membership tiers |
| dto.dfy | `Dto` | the three transfer objects |
| book_repository.dfy | `BookRepository` | the book queries |
| borrow_record_repository.dfy | `BorrowRecordRepository` | the loan queries; the count of a borrower's open loans |
| database.dfy | `Database` | the three tables as maps in one `Store` object; the invariant the services keep |
| book_service.dfy | `BookService` | catalogue operations |
| borrower_service.dfy | `BorrowerService` | borrower registration and lookup |
| borrow_record_service.dfy | `BorrowRecordService` | lending, returning and fines |
| scenarios.dfy | `Scenarios` | client runs that chain several service calls |

## How the model works

- **Tables.** Each table is a `map` from ids to entity values, held in a field of the
  class `Database.Store`. Ids are natural numbers drawn from one counter, `nextId`,
  so a new row always gets an id that was never used. This stands in for the UUID generator.
- **Saving rows.** Java loads an entity, calls its setters, then `save`s it. Here that is
  one map update, done in `Store.Commit`.
- **Operations.** Each service operation is a `method` on the store:
  - an operation that writes has `modifies db`; the read-only ones have no modifies clause;
  - every `ResourceNotFoundException` and `BadRequestException` the Java code throws
    becomes an `Err` result with the same message (`NotFound`, `BadRequest`);
  - the `IllegalArgumentException` of `MembershipType.valueOf` and Spring's
    `IncorrectResultSizeDataAccessException` become the error values `IllegalArgument`
    and `IncorrectResultSize`, which carry no message;
  - the `NullPointerException` `getById` would raise on a borrower without a tier is not
    modelled as an error: the store invariant rules that borrower out, and `GetById`
    requires it;
  - an operation that fails leaves the store unchanged (`unchanged(db)`), as its
    transaction's rollback does.
- **Store invariant.** `Store.Valid()` holds:
  - every id is below `nextId`;
  - every loan names a stored book and a stored borrower;
  - every borrower has a tier;
  - no borrower has more open loans than their tier allows.
  Every operation preserves it.
- **Dates.** A date is an integer day number. "Today" is a parameter of `Borrow` and
  `ReturnBook` in place of `LocalDate.now()`.
- **Fines.** A fine is an exact integer: 10 times the days late, or 0 when returned on
  time. `DEFAULT_FINE_PER_DAY` is 10.
- **Copy counts.** Copy counts are Java `int`s (`Common.Int32`). The two additions the
  source can overflow wrap around explicitly (`Common.Add32`):
  - the merge in `createOrIncrease`;
  - the increment in `returnBook`.
  The decrement in `borrow` cannot overflow, because it only runs when the count is positive.

### Where the model follows the code, not the design

The code is modelled as written in each of these places:

- `createOrIncrease` rejects only a **null** title. An empty title is accepted.
- `update` replaces a field only when the request's value is non-null, and the total only
  when it is positive. It does not skip empty strings.
- `update` always overwrites `availableCopies`, with any value.
  That value may be negative, or more than the total.
- `update`, `borrow` and `returnBook` look books up by id and do not check the
  soft-delete flag. A deleted book can still be updated and lent.
- `returnBook` adds one copy back without a bound. If `update` has lowered the counts
  meanwhile, the available count can end above the total.
- `findByFilter` tests only whether `available` is null. `available = false` still
  restricts the result to books with a free copy (`BookRepository.FilterIgnoresAvailableValue`).
- `findByTitleAndDeletedFalse` expects at most one match. A rename through `update` can
  create a second live book with the same title. The query then fails, and so does
  `createOrIncrease`. This is modelled as `Err(IncorrectResultSize)`.
- `getById` never fills in `maxBorrowLimit`. It stays 0.

## Model

| member | source | states |
|---|---|---|
| Common.Add32 | src/main/java/com/library/management/service/BorrowRecordService.java:80 | the 32-bit sum: the exact sum when it fits, and congruent to it modulo 2^32 otherwise |
| Entities.TierName | src/main/java/com/library/management/service/BorrowerService.java:40 | `name()` of a tier: always "BASIC" or "PREMIUM", and "PREMIUM" exactly for the PREMIUM tier, so distinct tiers get distinct names |
| Entities.TierValueOf | src/main/java/com/library/management/service/BorrowerService.java:29 | `MembershipType.valueOf`: succeeds exactly for "BASIC" and "PREMIUM", gives the tier of that name, and fails with an illegal-argument error on any other string |
| Entities.TierNameRoundTrip | src/main/java/com/library/management/service/BorrowerService.java:29-40 | the name `getById` reports for a tier reads back, through `valueOf`, as that same tier |
| Entities.Borrower.MaxBorrowLimit | src/main/java/com/library/management/entity/Borrower.java:41-43 | the limit is 5 exactly when the tier is PREMIUM, and 2 in every other case, a missing tier included |
| Entities.LimitDependsOnlyOnTier | src/main/java/com/library/management/entity/Borrower.java:41-43 | two borrowers with the same tier have the same limit, and every limit lies between 2 and 5 |
| BookRepository.FindByCategory | src/main/java/com/library/management/repository/BookRepository.java:17 | the result holds exactly the books whose category equals the argument, deleted ones included |
| BookRepository.FindByFilter | src/main/java/com/library/management/repository/BookRepository.java:20-21 | the result holds exactly the live books that match a given category, and that have a free copy when `available` is given |
| BookRepository.FilterIsLiveCategoryQuery | src/main/java/com/library/management/repository/BookRepository.java:17-21 | with a category and a null `available`, `findByFilter` selects exactly what `findByCategory` selects minus the soft-deleted books |
| BookRepository.FilterIgnoresAvailableValue | src/main/java/com/library/management/repository/BookRepository.java:20 | `available = false` selects the same books as `available = true` |
| BookRepository.ActiveTitleIds | src/main/java/com/library/management/repository/BookRepository.java:24-27 | the ids of exactly the live books that carry the title |
| BookRepository.ExistsByTitleAndDeletedFalse | src/main/java/com/library/management/repository/BookRepository.java:24 | true exactly when the set of live books carrying the title is non-empty, the set `findByTitleAndDeletedFalse` chooses from |
| BookRepository.FindByTitleAndDeletedFalse | src/main/java/com/library/management/repository/BookRepository.java:27 | no result exactly when no live book carries the title; the single such book when there is one; an error exactly when there are several |
| BorrowRecordRepository.FindByBorrowerIdAndReturnDateIsNull | src/main/java/com/library/management/repository/BorrowRecordRepository.java:13 | exactly the borrower's records that have no return date |
| BorrowRecordRepository.FindByReturnDateIsNull | src/main/java/com/library/management/repository/BorrowRecordRepository.java:14 | exactly the records that have no return date |
| BorrowRecordRepository.ActiveCount | src/main/java/com/library/management/service/BorrowRecordService.java:47-48 | `active.size()`: 0 exactly when none of the borrower's records is open |
| BorrowRecordRepository.RecordsOfBook | src/main/java/com/library/management/service/BookService.java:77 | exactly the records that name the book, that is, `Book.borrowRecords` |
| BorrowRecordRepository.ActiveCountAtMostAllActive | src/main/java/com/library/management/repository/BorrowRecordRepository.java:13-14 | a borrower's open loans are never more than all open loans |
| BorrowRecordRepository.ActiveCountAfterInsert | src/main/java/com/library/management/service/BorrowRecordService.java:47-62 | saving a new record raises a borrower's open-loan count by one if it is an open loan of theirs, and leaves it unchanged otherwise |
| BorrowRecordRepository.ActiveCountAfterClose | src/main/java/com/library/management/service/BorrowRecordService.java:73-82 | closing an open loan lowers its borrower's count by one and leaves every other borrower's count unchanged |
| BorrowRecordRepository.ActiveCountOfUnreferenced | src/main/java/com/library/management/service/BorrowerService.java:24-34 | a borrower that no record names has no open loans |
| Database.WithinLimitsAfterLoan | src/main/java/com/library/management/service/BorrowRecordService.java:47-62 | a loan granted under the limit keeps every borrower within their limit |
| Database.WithinLimitsAfterClose | src/main/java/com/library/management/service/BorrowRecordService.java:73-82 | closing a loan keeps every borrower within their limit |
| Database.WithinLimitsAfterRegister | src/main/java/com/library/management/service/BorrowerService.java:24-34 | adding a borrower that no record names keeps every borrower within their limit |
| Database.ConsistentAfterBookWrite | src/main/java/com/library/management/service/BookService.java:35-48 | replacing a stored book, or storing one under the next fresh id, preserves the store invariant |
| Database.ConsistentAfterRegister | src/main/java/com/library/management/service/BorrowerService.java:24-34 | storing a borrower that has a tier under the next fresh id preserves the store invariant |
| Database.ConsistentAfterLoan | src/main/java/com/library/management/service/BorrowRecordService.java:44-62 | storing a new loan of a stored book to a stored borrower under their limit preserves the store invariant |
| Database.ConsistentAfterClose | src/main/java/com/library/management/service/BorrowRecordService.java:69-82 | closing an open loan, and updating its book, preserves the store invariant |
| BorrowRecordService.MapToDto | src/main/java/com/library/management/service/BorrowRecordService.java:92-102 | the DTO carries the record's id, and its other fields rebuild the record exactly |
| BorrowRecordService.CanBorrow | src/main/java/com/library/management/service/BorrowRecordService.java:40-48 | the checks `borrow` makes, in order: a book without a free copy is never lent, and nobody passes the checks holding five or more open loans |
| BorrowRecordService.NewLoan | src/main/java/com/library/management/service/BorrowRecordService.java:51-57 | the new record is open, names the book and borrower, is dated today, is due 14 days later, starts with fine 0, and costs nothing if returned on its due day |
| BorrowRecordService.Closed | src/main/java/com/library/management/service/BorrowRecordService.java:73-76 | the closed record is returned today, carries `Fine` of its due day, and differs from the open one only in return date and fine |
| BorrowRecordService.Fine | src/main/java/com/library/management/service/BorrowRecordService.java:74-76 | the fine is 0 exactly when the book comes back on or before the due day; otherwise it is 10 per day late; it is always a multiple of 10 |
| BorrowRecordService.FineMonotonic | src/main/java/com/library/management/service/BorrowRecordService.java:74-76 | a later return never costs less |
| BorrowRecordService.FineExamples | src/main/java/com/library/management/service/BorrowRecordService.java:28 | three days late costs 30; a return on or before the due day costs 0 |
| BorrowRecordService.Borrow | src/main/java/com/library/management/service/BorrowRecordService.java:38-64 | the four refusals in the code's order with its messages (no book, no borrower, no free copy, limit reached), and success exactly when none applies. On success: a fresh record dated today, due in 14 days, open, fine 0; one fewer available copy; the borrower's open count one higher and still within the limit; nothing else changed |
| BorrowRecordService.ReturnBook | src/main/java/com/library/management/service/BorrowRecordService.java:67-84 | refused when the record is missing or already returned, and succeeds otherwise. On success: the record is closed today with its fine; the book regains one copy (32-bit); borrowers and ids are unchanged |
| BorrowRecordService.GetActiveRecords | src/main/java/com/library/management/service/BorrowRecordService.java:87-102 | exactly the open records, each mapped to its DTO; no single borrower has more open loans than the list holds; nothing changes |
| BookService.CreateOrIncrease | src/main/java/com/library/management/service/BookService.java:30-51 | refused without a title. A live book with the title gets the request's counts added (32-bit) and no book is created. Otherwise a new, undeleted book with the request's fields is stored under a fresh id. Fails when several live books share the title |
| BookService.MapToDto | src/main/java/com/library/management/service/BookService.java:84-93 | the DTO carries the id, a title and no `isAvailable`, and together with the delete flag its fields rebuild the book exactly |
| BookService.Merged | src/main/java/com/library/management/service/BookService.java:35-36 | only the two counts change, and each is the exact sum whenever that sum fits in an `int` |
| BookService.List | src/main/java/com/library/management/service/BookService.java:53-58 | exactly the books `findByFilter` selects, each mapped to its DTO; nothing changes |
| BookService.Update | src/main/java/com/library/management/service/BookService.java:61-71 | "Book not found" for an unknown id. Otherwise title, author and category change only when supplied, the total only when positive, the available count always; the delete flag and every other book are unchanged |
| BookService.HasActiveRecords | src/main/java/com/library/management/service/BookService.java:77 | the `anyMatch` over `Book.borrowRecords` holds exactly when some record in the whole table names the book and is open |
| BookService.SoftDelete | src/main/java/com/library/management/service/BookService.java:74-81 | "Book not found" for an unknown id. Refused while a record of the book is open. Otherwise only the delete flag is set, and a second delete changes nothing |
| BorrowerService.Create | src/main/java/com/library/management/service/BorrowerService.java:24-34 | a new borrower with the request's name and e-mail, under a fresh id. The tier is BASIC when none is requested. An unknown tier name fails and stores nothing. The reply is the request with the new id |
| BorrowerService.RequestedTier | src/main/java/com/library/management/service/BorrowerService.java:29 | the tier `create` stores: BASIC when none is requested, and otherwise the tier whose name the request gives, failing exactly on names other than "BASIC" and "PREMIUM" |
| BorrowerService.GetById | src/main/java/com/library/management/service/BorrowerService.java:37-42 | "Borrower not found" for an unknown id. Otherwise the stored name, e-mail and tier name, with `maxBorrowLimit` 0 |
| Scenarios.BorrowThenReturn | src/main/java/com/library/management/service/BorrowRecordService.java:60-80 | a loan followed by its return succeeds and restores the book's available count; the fine is the one for the due day 14 days after lending |
| Scenarios.IntakeTwice | src/main/java/com/library/management/service/BookService.java:33-38 | two intakes of 3 copies under one title leave one live book with that title, with 6 total and 6 available |
| Scenarios.IntakeTwiceInto | src/main/java/com/library/management/service/BookService.java:30-51 | in any valid store without a live book of the title, two intakes of 3 copies leave exactly one live book of that title, new, with 6 total and 6 available, and no other book changed |
| Scenarios.ThirdLoanRefused | src/main/java/com/library/management/service/BorrowRecordService.java:47-48 | a BASIC borrower's third open loan is refused with "Borrow limit reached" |
| Scenarios.OneCopyLent | src/main/java/com/library/management/service/BorrowRecordService.java:38-64 | after one intake, one registration and one loan, the store holds exactly that book and one open record of it |
| Scenarios.DeleteAfterReturn | src/main/java/com/library/management/service/BookService.java:74-81 | soft delete is refused while the copy is out and succeeds once it is back; the deleted book is no longer listed |
| Scenarios.DeleteTwice | src/main/java/com/library/management/service/BookService.java:74-81 | after a successful soft delete, a second one also succeeds, and the two together only set the flag |
| Scenarios.RegisterThenLookUp | src/main/java/com/library/management/service/BorrowerService.java:24-42 | a registered borrower reads back with its name, e-mail and tier, with BASIC when none was given |

## Left out

- The controllers and HTTP layer, including the mapping of exceptions to status codes.
  The services' results carry the same errors.
- `list`'s paging and sorting (`page`, `size`, `sortBy`, `dir`). `BookService.List`
  returns the whole filtered set, not one sorted page.
- Result order. Query results are maps keyed by id, so the order of the lists and pages
  the repositories return is not modelled.
- JPA itself: lazy loading, cascades and the UUID generator. Fresh natural-number ids
  stand in for the generator.
- Implicit `setId`. The id a row carries is its map key, so `Book`, `Borrower` and
  `BorrowRecord` have no id field.
- Concurrency and transaction isolation. Each `@Transactional` operation runs as one
  atomic step, and a failed one changes nothing.
- Entities as values. Java mutates entity objects shared by reference, and `create`
  also writes the new id into the caller's DTO object. The model has no aliasing;
  `BorrowerService.Create` returns the DTO with the id set.
- BorrowRecordService.Borrow: reads the clock once for both the borrow date and the due
  date. The code calls `LocalDate.now()` twice, so a loan made at midnight can get a due
  date 15 days after its borrow date.
- Calendar range limits. `LocalDate` has bounds that can raise exceptions; day numbers
  are unbounded integers.
- BorrowRecordService.Fine: integer, not `double`. The fine is an exact integer rather
  than a `Double`. It also leaves out the `long` day count, whose range a day-number
  difference cannot reach.
- BookService.List: models the query only. The request is assumed to carry valid paging
  and a sort field; with invalid ones `PageRequest.of` and `Sort.by` would throw.
- Tier names. `MembershipType.java` is not part of this model. Its constants are taken to
  be BASIC and PREMIUM, as `Borrower.getMaxBorrowLimit` and the DTOs imply, and
  `valueOf` is taken to match names exactly.
- String comparison. Titles and categories compare as exact character sequences; the
  database's collation, for example case-insensitive matching, is not modelled.
- `BorrowerRepository`. It is a plain `findById`/`save` repository, modelled as the
  borrower map.
- BorrowerService.GetById: requires a valid store. `getById` would throw a
  null-pointer exception on a borrower without a tier; every operation here keeps one.
