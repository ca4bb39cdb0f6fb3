/** service/BookService.java: catalogue intake (merge by title), listing,
    partial update and soft delete. */
module BookService {
  import opened Common
  import opened Entities
  import opened Dto
  import opened BookRepository
  import opened BorrowRecordRepository
  import opened Database

  /** mapToDto: the book's fields and id; `isAvailable` is left null. */
  function MapToDto(id: Id, b: Book): (r: BookDto)
    ensures r.id == Some(id) && r.title.Some? && r.isAvailable.None?
    ensures Book(r.title.value, r.author, r.category, r.totalCopies, r.availableCopies, b.deleted) == b
  {
    BookDto(Some(id), Some(b.title), b.author, b.category, None, b.totalCopies, b.availableCopies)
  }

  /** The book with an intake of `dto`'s copies added to its counts. */
  function Merged(b: Book, dto: BookDto): (r: Book)
    ensures r.(totalCopies := b.totalCopies, availableCopies := b.availableCopies) == b
    ensures MinInt32 <= b.totalCopies + dto.totalCopies <= MaxInt32 ==> r.totalCopies == b.totalCopies + dto.totalCopies
    ensures MinInt32 <= b.availableCopies + dto.availableCopies <= MaxInt32
            ==> r.availableCopies == b.availableCopies + dto.availableCopies
  {
    b.(totalCopies := Add32(b.totalCopies, dto.totalCopies),
       availableCopies := Add32(b.availableCopies, dto.availableCopies))
  }

  /** createOrIncrease: a request without a title is refused. When a book
      that is not soft-deleted already carries the title, the supplied copy
      counts are added to it; otherwise a new book is stored. */
  method CreateOrIncrease(db: Store, dto: BookDto) returns (r: Result<BookDto>)
    requires db.Valid()
    modifies db
    ensures db.Valid()
    ensures db.borrowers == old(db.borrowers) && db.records == old(db.records)
    ensures dto.title.None? ==> r == Err(BadRequest("Title required"))
    ensures dto.title.Some? && |ActiveTitleIds(old(db.books), dto.title.value)| > 1 ==> r == Err(IncorrectResultSize)
    ensures r.Err? ==> unchanged(db)
    ensures r.Ok? <==> dto.title.Some? && |ActiveTitleIds(old(db.books), dto.title.value)| <= 1
    ensures r.Ok? && ExistsByTitleAndDeletedFalse(old(db.books), dto.title.value) ==>
              && r.value.id.Some?
              && var id := r.value.id.value;
                 && ActiveTitleIds(old(db.books), dto.title.value) == {id}
                 && db.books == old(db.books)[id := Merged(old(db.books)[id], dto)]
                 && db.nextId == old(db.nextId)
                 && r.value == MapToDto(id, db.books[id])
    ensures r.Ok? && !ExistsByTitleAndDeletedFalse(old(db.books), dto.title.value) ==>
              && r.value.id.Some?
              && var id := r.value.id.value;
                 var b := Book(dto.title.value, dto.author, dto.category, dto.totalCopies, dto.availableCopies, false);
                 && id !in old(db.books)
                 && db.books == old(db.books)[id := b]
                 && r.value == MapToDto(id, b)
  {
    if dto.title.None? {
      r := Err(BadRequest("Title required"));
    } else if ExistsByTitleAndDeletedFalse(db.books, dto.title.value) {
      var found := FindByTitleAndDeletedFalse(db.books, dto.title.value);
      if found.Err? {
        r := Err(found.error);
      } else {
        var id := found.value.value;
        // The two setter calls of the source, one after the other; the
        // contract states the result as `Merged`.
        var existing := db.books[id];
        var merged := existing.(totalCopies := Add32(existing.totalCopies, dto.totalCopies));
        merged := merged.(availableCopies := Add32(existing.availableCopies, dto.availableCopies));
        ConsistentAfterBookWrite(db.books, db.borrowers, db.records, db.nextId, id, merged);
        db.Commit(db.books[id := merged], db.borrowers, db.records, db.nextId);
        r := Ok(MapToDto(id, merged));
      }
    } else {
      var b := Book(dto.title.value, dto.author, dto.category, dto.totalCopies, dto.availableCopies, false);
      var id := db.nextId;
      ConsistentAfterBookWrite(db.books, db.borrowers, db.records, id, id, b);
      db.Commit(db.books[id := b], db.borrowers, db.records, id + 1);
      r := Ok(MapToDto(id, b));
    }
  }

  /** list: the books findByFilter selects, as DTOs; nothing is changed. */
  method List(db: Store, category: Option<string>, available: Option<bool>) returns (r: map<Id, BookDto>)
    ensures forall id :: id in r <==> id in FindByFilter(db.books, category, available)
    ensures forall id :: id in r ==> id in db.books && r[id] == MapToDto(id, db.books[id])
  {
    var page := FindByFilter(db.books, category, available);
    r := map id | id in page :: MapToDto(id, page[id]);
  }

  /** update: overwrite the fields `dto` supplies. Title, author and category
      change only when non-null, the total only when positive; the available
      count is always overwritten, unchecked. Soft-deleted books are found too. */
  method Update(db: Store, id: Id, dto: BookDto) returns (r: Result<BookDto>)
    requires db.Valid()
    modifies db
    ensures db.Valid()
    ensures db.borrowers == old(db.borrowers) && db.records == old(db.records) && db.nextId == old(db.nextId)
    ensures id !in old(db.books) ==> r == Err(NotFound("Book not found")) && unchanged(db)
    ensures id in old(db.books) ==> r.Ok? && id in db.books && db.books == old(db.books)[id := db.books[id]]
    ensures r.Ok? ==> id in old(db.books) && id in db.books && r.value == MapToDto(id, db.books[id])
    ensures r.Ok? ==> db.books[id].title == if dto.title.Some? then dto.title.value else old(db.books)[id].title
    ensures r.Ok? ==> db.books[id].author == if dto.author.Some? then dto.author else old(db.books)[id].author
    ensures r.Ok? ==> db.books[id].category == if dto.category.Some? then dto.category else old(db.books)[id].category
    ensures r.Ok? ==> db.books[id].totalCopies == if dto.totalCopies > 0 then dto.totalCopies else old(db.books)[id].totalCopies
    ensures r.Ok? ==> db.books[id].availableCopies == dto.availableCopies
    ensures r.Ok? ==> db.books[id].deleted == old(db.books)[id].deleted
  {
    if id !in db.books {
      r := Err(NotFound("Book not found"));
    } else {
      var b := db.books[id];
      if dto.title.Some? { b := b.(title := dto.title.value); }
      if dto.author.Some? { b := b.(author := dto.author); }
      if dto.category.Some? { b := b.(category := dto.category); }
      if dto.totalCopies > 0 { b := b.(totalCopies := dto.totalCopies); }
      b := b.(availableCopies := dto.availableCopies);
      ConsistentAfterBookWrite(db.books, db.borrowers, db.records, db.nextId, id, b);
      db.Commit(db.books[id := b], db.borrowers, db.records, db.nextId);
      r := Ok(MapToDto(id, b));
    }
  }

  /** Whether some record of the book (Book.borrowRecords) is still out. */
  predicate HasActiveRecords(records: map<Id, BorrowRecord>, bookId: Id)
    ensures HasActiveRecords(records, bookId)
            <==> exists rid | rid in records :: records[rid].bookId == bookId && records[rid].IsActive()
  {
    var mine := RecordsOfBook(records, bookId);
    exists rid | rid in mine :: mine[rid].returnDate.None?
  }

  /** softDelete: flag the book deleted, unless a copy of it is still out. */
  method SoftDelete(db: Store, id: Id) returns (r: Result<()>)
    requires db.Valid()
    modifies db
    ensures db.Valid()
    ensures db.borrowers == old(db.borrowers) && db.records == old(db.records) && db.nextId == old(db.nextId)
    ensures id !in old(db.books) ==> r == Err(NotFound("Book not found"))
    ensures id in old(db.books) && HasActiveRecords(old(db.records), id)
            ==> r == Err(BadRequest("Cannot delete book with active borrow records"))
    ensures r.Ok? <==> id in old(db.books) && !HasActiveRecords(old(db.records), id)
    ensures r.Err? ==> unchanged(db)
    ensures r.Ok? ==> id in old(db.books) && db.books == old(db.books)[id := old(db.books)[id].(deleted := true)]
    ensures r.Ok? && old(db.books)[id].deleted ==> db.books == old(db.books)
  {
    if id !in db.books {
      r := Err(NotFound("Book not found"));
    } else if HasActiveRecords(db.records, id) {
      r := Err(BadRequest("Cannot delete book with active borrow records"));
    } else {
      var b := db.books[id].(deleted := true);
      ConsistentAfterBookWrite(db.books, db.borrowers, db.records, db.nextId, id, b);
      db.Commit(db.books[id := b], db.borrowers, db.records, db.nextId);
      r := Ok(());
    }
  }
}
