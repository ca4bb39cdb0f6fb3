/** service/BorrowRecordService.java: the loan life cycle. A record goes from
    not existing, to active (no return date) on `Borrow`, to returned on
    `ReturnBook`, and never changes again. */
module BorrowRecordService {
  import opened Common
  import opened Entities
  import opened Dto
  import opened BorrowRecordRepository
  import opened Database

  /** DEFAULT_FINE_PER_DAY, in currency units. */
  const DefaultFinePerDay: nat := 10

  /** How many days after the borrow date a loan falls due. */
  const LoanPeriodDays: nat := 14

  /** The fine for a loan due on `dueDate` and returned on `returnDate`: ten
      units for each day late, nothing when returned on or before the due day. */
  function Fine(dueDate: Day, returnDate: Day): (r: nat)
    ensures r == 0 <==> returnDate <= dueDate
    ensures returnDate > dueDate ==> r == (returnDate - dueDate) * DefaultFinePerDay
    ensures r % DefaultFinePerDay == 0
  {
    var daysLate := returnDate - dueDate;
    if daysLate > 0 then daysLate * DefaultFinePerDay else 0
  }

  /** A later return never costs less. */
  lemma FineMonotonic(dueDate: Day, early: Day, late: Day)
    requires early <= late
    ensures Fine(dueDate, early) <= Fine(dueDate, late)
  {
  }

  /** Due on day D: returned on D + 3 the fine is 30, returned on D or before it is 0. */
  lemma FineExamples(d: Day, early: Day)
    requires early <= d
    ensures Fine(d, d + 3) == 30
    ensures Fine(d, d) == 0 && Fine(d, early) == 0
  {
  }

  /** mapToDto. */
  function MapToDto(id: Id, r: BorrowRecord): (d: BorrowRecordDto)
    ensures d.id == id
    ensures BorrowRecord(d.bookId, d.borrowerId, d.borrowDate, d.dueDate, d.returnDate, d.fineAmount) == r
  {
    BorrowRecordDto(id, r.bookId, r.borrowerId, r.borrowDate, r.dueDate, r.returnDate, r.fineAmount)
  }

  /** The checks `borrow` makes, in its order, before it changes anything. */
  predicate CanBorrow(books: map<Id, Book>, borrowers: map<Id, Borrower>, records: map<Id, BorrowRecord>, bookId: Id, borrowerId: Id)
    ensures bookId in books && books[bookId].availableCopies <= 0 ==> !CanBorrow(books, borrowers, records, bookId, borrowerId)
    ensures CanBorrow(books, borrowers, records, bookId, borrowerId) ==> ActiveCount(records, borrowerId) < 5
  {
    && bookId in books
    && borrowerId in borrowers
    && books[bookId].availableCopies > 0
    && ActiveCount(records, borrowerId) < borrowers[borrowerId].MaxBorrowLimit()
  }

  /** The record `borrow` creates on day `today`. */
  function NewLoan(bookId: Id, borrowerId: Id, today: Day): (r: BorrowRecord)
    ensures r.IsActive() && r.bookId == bookId && r.borrowerId == borrowerId
    ensures r.borrowDate == today && r.dueDate - r.borrowDate == LoanPeriodDays && r.fineAmount == 0
    ensures Closed(r, today + LoanPeriodDays).fineAmount == 0
  {
    BorrowRecord(bookId, borrowerId, today, today + LoanPeriodDays, None, 0)
  }

  /** The record as `returnBook` leaves it: returned today, with its fine fixed. */
  function Closed(rec: BorrowRecord, today: Day): (r: BorrowRecord)
    ensures !r.IsActive() && r.returnDate == Some(today)
    ensures r.fineAmount == Fine(rec.dueDate, today)
    ensures r.(returnDate := rec.returnDate, fineAmount := rec.fineAmount) == rec
  {
    rec.(returnDate := Some(today), fineAmount := Fine(rec.dueDate, today))
  }

  /** borrow: lend one copy of book `bookId` to borrower `borrowerId` on day `today`. */
  method Borrow(db: Store, bookId: Id, borrowerId: Id, today: Day) returns (r: Result<BorrowRecordDto>)
    requires db.Valid()
    modifies db
    ensures db.Valid()
    ensures bookId !in old(db.books) ==> r == Err(NotFound("Book not found"))
    ensures bookId in old(db.books) && borrowerId !in old(db.borrowers) ==> r == Err(NotFound("Borrower not found"))
    ensures bookId in old(db.books) && borrowerId in old(db.borrowers) && old(db.books)[bookId].availableCopies <= 0
            ==> r == Err(BadRequest("Book not available"))
    ensures bookId in old(db.books) && borrowerId in old(db.borrowers) && old(db.books)[bookId].availableCopies > 0
            && ActiveCount(old(db.records), borrowerId) >= old(db.borrowers)[borrowerId].MaxBorrowLimit()
            ==> r == Err(BadRequest("Borrow limit reached"))
    ensures r.Ok? <==> CanBorrow(old(db.books), old(db.borrowers), old(db.records), bookId, borrowerId)
    ensures r.Err? ==> unchanged(db)
    ensures r.Ok? ==> bookId in old(db.books) && r.value.id !in old(db.records)
    ensures r.Ok? ==> db.records == old(db.records)[r.value.id := NewLoan(bookId, borrowerId, today)]
    ensures r.Ok? ==> db.books == old(db.books)[bookId := old(db.books)[bookId].(availableCopies := old(db.books)[bookId].availableCopies - 1)]
    ensures r.Ok? ==> db.borrowers == old(db.borrowers)
    ensures r.Ok? ==> r.value == MapToDto(r.value.id, NewLoan(bookId, borrowerId, today))
    ensures r.Ok? ==> borrowerId in db.borrowers
                      && ActiveCount(db.records, borrowerId) == ActiveCount(old(db.records), borrowerId) + 1
                      && ActiveCount(db.records, borrowerId) <= db.borrowers[borrowerId].MaxBorrowLimit()
  {
    if bookId !in db.books {
      r := Err(NotFound("Book not found"));
    } else if borrowerId !in db.borrowers {
      r := Err(NotFound("Borrower not found"));
    } else if db.books[bookId].availableCopies <= 0 {
      r := Err(BadRequest("Book not available"));
    } else if ActiveCount(db.records, borrowerId) >= db.borrowers[borrowerId].MaxBorrowLimit() {
      r := Err(BadRequest("Borrow limit reached"));
    } else {
      // The builder call of the source, field by field; the contract states
      // the record as `NewLoan`.
      var book := db.books[bookId];
      var rec := BorrowRecord(bookId, borrowerId, today, today + LoanPeriodDays, None, 0);
      var lent := book.(availableCopies := book.availableCopies - 1);
      var id := db.nextId;
      ConsistentAfterLoan(db.books, db.borrowers, db.records, id, rec, lent);
      ActiveCountAfterInsert(db.records, id, rec, borrowerId);
      db.Commit(db.books[bookId := lent], db.borrowers, db.records[id := rec], id + 1);
      r := Ok(MapToDto(id, rec));
    }
  }

  /** returnBook: close record `recordId` on day `today`, fix its fine and put
      the copy back on the shelf. The book is the record's own, deleted or not. */
  method ReturnBook(db: Store, recordId: Id, today: Day) returns (r: Result<BorrowRecordDto>)
    requires db.Valid()
    modifies db
    ensures db.Valid()
    ensures recordId !in old(db.records) ==> r == Err(NotFound("Borrow record not found"))
    ensures recordId in old(db.records) && old(db.records)[recordId].returnDate.Some?
            ==> r == Err(BadRequest("Book already returned"))
    ensures r.Ok? <==> recordId in old(db.records) && old(db.records)[recordId].IsActive()
    ensures r.Err? ==> unchanged(db)
    ensures r.Ok? ==> recordId in old(db.records) && old(db.records)[recordId].bookId in old(db.books)
    ensures r.Ok? ==> db.records == old(db.records)[recordId := Closed(old(db.records)[recordId], today)]
    ensures r.Ok? ==>
              var bookId := old(db.records)[recordId].bookId;
              var book := old(db.books)[bookId];
              db.books == old(db.books)[bookId := book.(availableCopies := Add32(book.availableCopies, 1))]
    ensures r.Ok? ==> db.borrowers == old(db.borrowers) && db.nextId == old(db.nextId)
    ensures r.Ok? ==> r.value == MapToDto(recordId, Closed(old(db.records)[recordId], today))
  {
    if recordId !in db.records {
      r := Err(NotFound("Borrow record not found"));
    } else if db.records[recordId].returnDate.Some? {
      r := Err(BadRequest("Book already returned"));
    } else {
      // The source's setter sequence; the contract states the result as
      // `Closed`, whose fine is `Fine`.
      var rec := db.records[recordId];
      var daysLate := today - rec.dueDate;
      var fine := if daysLate > 0 then daysLate * DefaultFinePerDay else 0;
      var closed := rec.(returnDate := Some(today), fineAmount := fine);
      var book := db.books[rec.bookId];
      var shelved := book.(availableCopies := Add32(book.availableCopies, 1));
      ConsistentAfterClose(db.books, db.borrowers, db.records, db.nextId, recordId, closed, shelved);
      db.Commit(db.books[rec.bookId := shelved], db.borrowers, db.records[recordId := closed], db.nextId);
      r := Ok(MapToDto(recordId, closed));
    }
  }

  /** getActiveRecords: every outstanding loan; nothing is changed. */
  method GetActiveRecords(db: Store) returns (r: map<Id, BorrowRecordDto>)
    ensures forall id :: id in r <==> id in db.records && db.records[id].returnDate.None?
    ensures forall id :: id in r ==> r[id] == MapToDto(id, db.records[id])
    ensures forall b :: ActiveCount(db.records, b) <= |r|
  {
    var active := FindByReturnDateIsNull(db.records);
    r := map id | id in active :: MapToDto(id, active[id]);
    assert r.Keys == active.Keys;
    forall b
      ensures ActiveCount(db.records, b) <= |r|
    {
      ActiveCountAtMostAllActive(db.records, b);
    }
  }
}
