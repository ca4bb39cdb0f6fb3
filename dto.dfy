/** The data-transfer shapes the services accept and return (the classes under dto/). */
module Dto {
  import opened Common
  import opened Entities

  /** BookDTO. As input only title, author, category and the two counts are
      read; `isAvailable` is never filled in by the services. */
  datatype BookDto = BookDto(
    id: Option<Id>,
    title: Option<string>,
    author: Option<string>,
    category: Option<string>,
    isAvailable: Option<bool>,
    totalCopies: Int32,
    availableCopies: Int32)

  /** BorrowerDTO; `membershipType` is the tier's name. */
  datatype BorrowerDto = BorrowerDto(
    id: Option<Id>,
    name: Option<string>,
    email: Option<string>,
    membershipType: Option<string>,
    maxBorrowLimit: Int32)

  /** BorrowRecordDTO: the record's fields with the book and borrower as ids. */
  datatype BorrowRecordDto = BorrowRecordDto(
    id: Id,
    bookId: Id,
    borrowerId: Id,
    borrowDate: Day,
    dueDate: Day,
    returnDate: Option<Day>,
    fineAmount: int)
}
