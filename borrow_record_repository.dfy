/** The derived queries of repository/BorrowRecordRepository.java over the
    record store, and the count of a borrower's outstanding loans that the
    borrow limit is checked against. */
module BorrowRecordRepository {
  import opened Entities

  /** findByBorrowerIdAndReturnDateIsNull: the borrower's outstanding loans. */
  function FindByBorrowerIdAndReturnDateIsNull(records: map<Id, BorrowRecord>, borrowerId: Id): (r: map<Id, BorrowRecord>)
    ensures forall id :: id in r ==> id in records && r[id] == records[id]
    ensures forall id :: id in r ==> r[id].borrowerId == borrowerId
    ensures forall id :: id in r ==> r[id].returnDate.None?
    ensures forall id :: id in records && records[id].borrowerId == borrowerId && records[id].returnDate.None? ==> id in r
  {
    map id | id in records && records[id].borrowerId == borrowerId && records[id].returnDate.None? :: records[id]
  }

  /** findByReturnDateIsNull: every outstanding loan, of any book and borrower. */
  function FindByReturnDateIsNull(records: map<Id, BorrowRecord>): (r: map<Id, BorrowRecord>)
    ensures forall id :: id in r ==> id in records && r[id] == records[id]
    ensures forall id :: id in r ==> r[id].returnDate.None?
    ensures forall id :: id in records && records[id].returnDate.None? ==> id in r
  {
    map id | id in records && records[id].returnDate.None? :: records[id]
  }

  /** The size of the list findByBorrowerIdAndReturnDateIsNull returns. */
  function ActiveCount(records: map<Id, BorrowRecord>, borrowerId: Id): (r: nat)
    ensures r == 0 <==> forall id | id in records && records[id].borrowerId == borrowerId :: !records[id].IsActive()
  {
    |FindByBorrowerIdAndReturnDateIsNull(records, borrowerId)|
  }

  /** Book.borrowRecords: every record, active or not, that refers to the book. */
  function RecordsOfBook(records: map<Id, BorrowRecord>, bookId: Id): (r: map<Id, BorrowRecord>)
    ensures forall id :: id in r ==> id in records && r[id] == records[id] && r[id].bookId == bookId
    ensures forall id :: id in records && records[id].bookId == bookId ==> id in r
  {
    map id | id in records && records[id].bookId == bookId :: records[id]
  }

  /** A borrower's outstanding loans are among all outstanding loans. */
  lemma ActiveCountAtMostAllActive(records: map<Id, BorrowRecord>, borrowerId: Id)
    ensures ActiveCount(records, borrowerId) <= |FindByReturnDateIsNull(records)|
  {
    var mine := FindByBorrowerIdAndReturnDateIsNull(records, borrowerId);
    var all := FindByReturnDateIsNull(records);
    var rest := all.Keys - mine.Keys;
    assert all.Keys == mine.Keys + rest;
    assert mine.Keys * rest == {};
    assert |all.Keys| == |mine.Keys| + |rest|;
  }

  /** Storing a new record adds one to the count of the borrower it names
      when it is active, and changes no other borrower's count. */
  lemma ActiveCountAfterInsert(records: map<Id, BorrowRecord>, rid: Id, rec: BorrowRecord, borrowerId: Id)
    requires rid !in records
    ensures ActiveCount(records[rid := rec], borrowerId)
            == ActiveCount(records, borrowerId) + (if rec.borrowerId == borrowerId && rec.IsActive() then 1 else 0)
  {
    var before := FindByBorrowerIdAndReturnDateIsNull(records, borrowerId);
    var after := FindByBorrowerIdAndReturnDateIsNull(records[rid := rec], borrowerId);
    if rec.borrowerId == borrowerId && rec.IsActive() {
      assert after.Keys == before.Keys + {rid};
      assert |after.Keys| == |before.Keys| + 1;
    } else {
      assert after.Keys == before.Keys;
    }
  }

  /** Closing an active record takes one off its borrower's count and changes
      no other borrower's count. */
  lemma ActiveCountAfterClose(records: map<Id, BorrowRecord>, rid: Id, closed: BorrowRecord, borrowerId: Id)
    requires rid in records && records[rid].IsActive()
    requires !closed.IsActive() && closed.borrowerId == records[rid].borrowerId
    ensures ActiveCount(records[rid := closed], borrowerId)
            == ActiveCount(records, borrowerId) - (if records[rid].borrowerId == borrowerId then 1 else 0)
  {
    var before := FindByBorrowerIdAndReturnDateIsNull(records, borrowerId);
    var after := FindByBorrowerIdAndReturnDateIsNull(records[rid := closed], borrowerId);
    if records[rid].borrowerId == borrowerId {
      assert after.Keys == before.Keys - {rid};
      assert |after.Keys| == |before.Keys| - 1;
    } else {
      assert after.Keys == before.Keys;
    }
  }

  /** A borrower that no record names has no outstanding loans. */
  lemma ActiveCountOfUnreferenced(records: map<Id, BorrowRecord>, borrowerId: Id)
    requires forall id :: id in records ==> records[id].borrowerId != borrowerId
    ensures ActiveCount(records, borrowerId) == 0
  {
    assert FindByBorrowerIdAndReturnDateIsNull(records, borrowerId).Keys == {};
  }
}
