/** Client-side runs of the services, one per behaviour the services promise
    across several calls. */
module Scenarios {
  import opened Common
  import opened Entities
  import opened Dto
  import opened Database
  import BookRepository
  import BorrowRecordRepository
  import BookService
  import BorrowerService
  import BorrowRecordService

  /** Borrowing a copy and returning it leaves the book's available count
      where it was. */
  method BorrowThenReturn(db: Store, bookId: Id, borrowerId: Id, lentOn: Day, returnedOn: Day)
    returns (loan: Result<BorrowRecordDto>, back: Result<BorrowRecordDto>)
    requires db.Valid()
    modifies db
    ensures db.Valid()
    ensures loan.Ok? ==> back.Ok? && bookId in old(db.books) && bookId in db.books
                         && db.books[bookId].availableCopies == old(db.books)[bookId].availableCopies
    ensures loan.Ok? ==> back.value.fineAmount == BorrowRecordService.Fine(lentOn + BorrowRecordService.LoanPeriodDays, returnedOn)
    ensures loan.Err? ==> unchanged(db)
  {
    loan := BorrowRecordService.Borrow(db, bookId, borrowerId, lentOn);
    if loan.Ok? {
      back := BorrowRecordService.ReturnBook(db, loan.value.id, returnedOn);
    } else {
      back := loan;
    }
  }

  /** Two intakes of three copies under one title yield a single book with
      six copies. */
  method IntakeTwice() returns (books: map<Id, Book>)
    ensures |books| == 1
    ensures forall id | id in books :: books[id].totalCopies == 6 && books[id].availableCopies == 6
                                     && !books[id].deleted && books[id].title == "Dune"
  {
    var db := new Store();
    var request := BookDto(None, Some("Dune"), None, None, None, 3, 3);
    assert BookRepository.ActiveTitleIds(db.books, "Dune") == {};
    var first := BookService.CreateOrIncrease(db, request);
    var id := first.value.id.value;
    assert db.books[id].title == "Dune";
    assert BookRepository.ActiveTitleIds(db.books, "Dune") == {id};
    var second := BookService.CreateOrIncrease(db, request);
    books := db.books;
    assert books.Keys == {id};
  }

  /** In any store without a live book titled `title`, two intakes of three
      copies under that title leave exactly one live book with that title,
      holding six copies, and no other book changed. */
  method IntakeTwiceInto(db: Store, title: string) returns (id: Id)
    requires db.Valid()
    requires !BookRepository.ExistsByTitleAndDeletedFalse(db.books, title)
    modifies db
    ensures db.Valid()
    ensures BookRepository.ActiveTitleIds(db.books, title) == {id}
    ensures id !in old(db.books) && id in db.books
    ensures db.books[id].totalCopies == 6 && db.books[id].availableCopies == 6
    ensures db.books == old(db.books)[id := db.books[id]]
  {
    var request := BookDto(None, Some(title), None, None, None, 3, 3);
    var first := BookService.CreateOrIncrease(db, request);
    id := first.value.id.value;
    assert BookRepository.ActiveTitleIds(db.books, title) == {id};
    var second := BookService.CreateOrIncrease(db, request);
  }

  /** A BASIC borrower's third concurrent loan is refused. */
  method ThirdLoanRefused(today: Day) returns (third: Result<BorrowRecordDto>)
    ensures third == Err(BadRequest("Borrow limit reached"))
  {
    var db := new Store();
    var book := BookService.CreateOrIncrease(db, BookDto(None, Some("Dune"), None, None, None, 5, 5));
    var bookId := book.value.id.value;
    var reader := BorrowerService.Create(db, BorrowerDto(None, Some("Ann"), None, None, 0));
    var readerId := reader.value.id.value;
    BorrowRecordRepository.ActiveCountOfUnreferenced(db.records, readerId);
    var first := BorrowRecordService.Borrow(db, bookId, readerId, today);
    var second := BorrowRecordService.Borrow(db, bookId, readerId, today);
    third := BorrowRecordService.Borrow(db, bookId, readerId, today);
  }

  /** A fresh store holding one single-copy book, lent out on day `today`
      to a new BASIC borrower. */
  method OneCopyLent(today: Day) returns (db: Store, bookId: Id, rid: Id)
    ensures fresh(db) && db.Valid()
    ensures db.books.Keys == {bookId} && !db.books[bookId].deleted
    ensures db.records.Keys == {rid} && db.records[rid].bookId == bookId && db.records[rid].IsActive()
  {
    db := new Store();
    var book := BookService.CreateOrIncrease(db, BookDto(None, Some("Dune"), None, None, None, 1, 1));
    bookId := book.value.id.value;
    var reader := BorrowerService.Create(db, BorrowerDto(None, Some("Ann"), None, None, 0));
    var readerId := reader.value.id.value;
    BorrowRecordRepository.ActiveCountOfUnreferenced(db.records, readerId);
    var loan := BorrowRecordService.Borrow(db, bookId, readerId, today);
    rid := loan.value.id;
  }

  /** A book cannot be soft-deleted while a copy is out; once it is back the
      delete succeeds and the book drops out of the listing. */
  method DeleteAfterReturn(today: Day) returns (whileOut: Result<()>, afterReturn: Result<()>, listed: map<Id, BookDto>)
    ensures whileOut == Err(BadRequest("Cannot delete book with active borrow records"))
    ensures afterReturn.Ok?
    ensures listed == map[]
  {
    var db, bookId, rid := OneCopyLent(today);
    assert rid in BorrowRecordRepository.RecordsOfBook(db.records, bookId);
    whileOut := BookService.SoftDelete(db, bookId);
    var back := BorrowRecordService.ReturnBook(db, rid, today);
    assert !BookService.HasActiveRecords(db.records, bookId);
    afterReturn := BookService.SoftDelete(db, bookId);
    listed := BookService.List(db, None, None);
    assert listed.Keys == {};
  }

  /** Soft-deleting a book a second time succeeds and changes nothing. */
  method DeleteTwice(db: Store, bookId: Id) returns (first: Result<()>, second: Result<()>)
    requires db.Valid()
    modifies db
    ensures db.Valid()
    ensures first.Ok? ==> second.Ok? && bookId in old(db.books)
                          && db.books == old(db.books)[bookId := old(db.books)[bookId].(deleted := true)]
  {
    first := BookService.SoftDelete(db, bookId);
    ghost var afterFirst := db.books;
    second := BookService.SoftDelete(db, bookId);
    if first.Ok? {
      assert afterFirst[bookId].deleted;
    }
  }

  /** A registered borrower reads back with the name, e-mail and tier it
      was registered with, BASIC when none was given. */
  method RegisterThenLookUp(db: Store, request: BorrowerDto) returns (created: Result<BorrowerDto>, found: Result<BorrowerDto>)
    requires db.Valid()
    modifies db
    ensures db.Valid()
    ensures created.Ok? ==> found.Ok? && found.value.id == created.value.id
                            && found.value.name == request.name && found.value.email == request.email
    ensures created.Ok? && request.membershipType.None? ==> found.value.membershipType == Some("BASIC")
    ensures created.Ok? && request.membershipType.Some? ==> found.value.membershipType == request.membershipType
  {
    created := BorrowerService.Create(db, request);
    if created.Ok? {
      found := BorrowerService.GetById(db, created.value.id.value);
    } else {
      found := created;
    }
  }
}
