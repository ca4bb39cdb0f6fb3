/** The relational store behind the three repositories: one map per table,
    keyed by primary key, and the source of fresh ids. A service method that
    throws leaves all of it as it was; one that returns has written all its
    changes. */
module Database {
  import opened Entities
  import opened BorrowRecordRepository

  /** No borrower holds more outstanding loans than their limit. */
  ghost predicate WithinLimits(borrowers: map<Id, Borrower>, records: map<Id, BorrowRecord>)
  {
    forall id {:trigger ActiveCount(records, id)} :: id in borrowers ==> ActiveCount(records, id) <= borrowers[id].MaxBorrowLimit()
  }

  /** What holds of every store the services can reach: ids are fresh,
      every record names a stored book and a stored borrower, every borrower
      has a tier, and no borrower is over their limit. */
  ghost predicate Consistent(books: map<Id, Book>, borrowers: map<Id, Borrower>, records: map<Id, BorrowRecord>, nextId: Id)
  {
    && (forall id :: id in books ==> id < nextId)
    && (forall id :: id in borrowers ==> id < nextId)
    && (forall id :: id in records ==> id < nextId)
    && (forall id :: id in records ==> records[id].bookId in books && records[id].borrowerId in borrowers)
    && (forall id :: id in borrowers ==> borrowers[id].membershipType.Some?)
    && WithinLimits(borrowers, records)
  }

  /** A new active loan that keeps its borrower within the limit keeps every
      borrower within their limit. */
  lemma WithinLimitsAfterLoan(borrowers: map<Id, Borrower>, records: map<Id, BorrowRecord>, rid: Id, rec: BorrowRecord)
    requires WithinLimits(borrowers, records)
    requires rid !in records && rec.borrowerId in borrowers
    requires ActiveCount(records, rec.borrowerId) < borrowers[rec.borrowerId].MaxBorrowLimit()
    ensures WithinLimits(borrowers, records[rid := rec])
  {
    forall b | b in borrowers
      ensures ActiveCount(records[rid := rec], b) <= borrowers[b].MaxBorrowLimit()
    {
      ActiveCountAfterInsert(records, rid, rec, b);
    }
  }

  /** Closing an active loan keeps every borrower within their limit. */
  lemma WithinLimitsAfterClose(borrowers: map<Id, Borrower>, records: map<Id, BorrowRecord>, rid: Id, closed: BorrowRecord)
    requires WithinLimits(borrowers, records)
    requires rid in records && records[rid].IsActive()
    requires !closed.IsActive() && closed.borrowerId == records[rid].borrowerId
    ensures WithinLimits(borrowers, records[rid := closed])
  {
    forall b | b in borrowers
      ensures ActiveCount(records[rid := closed], b) <= borrowers[b].MaxBorrowLimit()
    {
      ActiveCountAfterClose(records, rid, closed, b);
    }
  }

  /** A borrower registered under an id that no record names starts with no
      loans, so every borrower stays within their limit. */
  lemma WithinLimitsAfterRegister(borrowers: map<Id, Borrower>, records: map<Id, BorrowRecord>, id: Id, borrower: Borrower)
    requires WithinLimits(borrowers, records)
    requires forall rid :: rid in records ==> records[rid].borrowerId != id
    ensures WithinLimits(borrowers[id := borrower], records)
  {
    ActiveCountOfUnreferenced(records, id);
  }

  /** Writing a book under a stored id, or under the next fresh id, keeps the
      store consistent. */
  lemma ConsistentAfterBookWrite(books: map<Id, Book>, borrowers: map<Id, Borrower>, records: map<Id, BorrowRecord>,
                                 nextId: Id, bookId: Id, book: Book)
    requires Consistent(books, borrowers, records, nextId)
    requires bookId in books || bookId == nextId
    ensures Consistent(books[bookId := book], borrowers, records, if bookId == nextId then nextId + 1 else nextId)
  {
  }

  /** Registering a borrower with a tier under the next fresh id keeps the
      store consistent. */
  lemma ConsistentAfterRegister(books: map<Id, Book>, borrowers: map<Id, Borrower>, records: map<Id, BorrowRecord>,
                                nextId: Id, borrower: Borrower)
    requires Consistent(books, borrowers, records, nextId)
    requires borrower.membershipType.Some?
    ensures Consistent(books, borrowers[nextId := borrower], records, nextId + 1)
  {
    WithinLimitsAfterRegister(borrowers, records, nextId, borrower);
  }

  /** A new active loan of a stored book that keeps its borrower within the
      limit, stored under the next fresh id, keeps the store consistent. */
  lemma ConsistentAfterLoan(books: map<Id, Book>, borrowers: map<Id, Borrower>, records: map<Id, BorrowRecord>,
                            nextId: Id, rec: BorrowRecord, book: Book)
    requires Consistent(books, borrowers, records, nextId)
    requires rec.bookId in books && rec.borrowerId in borrowers && rec.IsActive()
    requires ActiveCount(records, rec.borrowerId) < borrowers[rec.borrowerId].MaxBorrowLimit()
    ensures Consistent(books[rec.bookId := book], borrowers, records[nextId := rec], nextId + 1)
  {
    WithinLimitsAfterLoan(borrowers, records, nextId, rec);
    var books', records' := books[rec.bookId := book], records[nextId := rec];
    assert forall id :: id in records' ==> records'[id].bookId in books' && records'[id].borrowerId in borrowers;
  }

  /** Closing an active loan (same book, same borrower) and rewriting its book
      keeps the store consistent. */
  lemma ConsistentAfterClose(books: map<Id, Book>, borrowers: map<Id, Borrower>, records: map<Id, BorrowRecord>,
                             nextId: Id, rid: Id, closed: BorrowRecord, book: Book)
    requires Consistent(books, borrowers, records, nextId)
    requires rid in records && records[rid].IsActive() && !closed.IsActive()
    requires closed.bookId == records[rid].bookId && closed.borrowerId == records[rid].borrowerId
    ensures Consistent(books[closed.bookId := book], borrowers, records[rid := closed], nextId)
  {
    WithinLimitsAfterClose(borrowers, records, rid, closed);
    var books', records' := books[closed.bookId := book], records[rid := closed];
    assert forall id :: id in records' ==> records'[id].bookId in books' && records'[id].borrowerId in borrowers;
  }

  class Store {
    var books: map<Id, Book>
    var borrowers: map<Id, Borrower>
    var records: map<Id, BorrowRecord>
    /** The next id to hand out; every stored id is below it. */
    var nextId: Id

    ghost predicate Valid()
      reads this
    {
      Consistent(books, borrowers, records, nextId)
    }

    /** An empty store. */
    constructor ()
      ensures Valid()
      ensures books == map[] && borrowers == map[] && records == map[] && nextId == 0
    {
      books, borrowers, records := map[], map[], map[];
      nextId := 0;
    }

    /** Commit a unit of work: all four parts of the store are written at once. */
    method Commit(books': map<Id, Book>, borrowers': map<Id, Borrower>, records': map<Id, BorrowRecord>, nextId': Id)
      requires Consistent(books', borrowers', records', nextId')
      modifies this
      ensures Valid()
      ensures books == books' && borrowers == borrowers' && records == records' && nextId == nextId'
    {
      books, borrowers, records, nextId := books', borrowers', records', nextId';
    }
  }
}
