/** The queries of repository/BookRepository.java, as functions of the book
    store. Each returns the matching part of the store (paging and sorting are
    not modelled), so a result is always a sub-map of the store. */
module BookRepository {
  import opened Common
  import opened Entities

  /** findByCategory: a derived query on the category column alone. It does
      not look at the soft-delete flag. A null argument matches books whose
      category is null. */
  function FindByCategory(books: map<Id, Book>, category: Option<string>): (r: map<Id, Book>)
    ensures forall id :: id in r ==> id in books && r[id] == books[id]
    ensures forall id :: id in r ==> r[id].category == category
    ensures forall id :: id in books && books[id].category == category ==> id in r
  {
    map id | id in books && books[id].category == category :: books[id]
  }

  /** findByFilter: books that are not soft-deleted, restricted to one
      category when `category` is non-null, and to books with a copy on the
      shelf when `available` is non-null, whichever Boolean it holds. */
  function FindByFilter(books: map<Id, Book>, category: Option<string>, available: Option<bool>): (r: map<Id, Book>)
    ensures forall id :: id in r ==> id in books && r[id] == books[id]
    ensures forall id :: id in r ==> !r[id].deleted
    ensures forall id :: id in r && category.Some? ==> r[id].category == category
    ensures forall id :: id in r && available.Some? ==> r[id].availableCopies > 0
    ensures forall id :: id in books && !books[id].deleted && category.None? && available.None? ==> id in r
    ensures forall id :: id in books && !books[id].deleted && books[id].category == category && available.None? ==> id in r
    ensures forall id :: id in books && !books[id].deleted && category.None? && books[id].availableCopies > 0 ==> id in r
    ensures forall id :: id in books && !books[id].deleted && books[id].category == category && books[id].availableCopies > 0 ==> id in r
  {
    map id | id in books
             && (category.None? || books[id].category == category)
             && (available.None? || books[id].availableCopies > 0)
             && !books[id].deleted
      :: books[id]
  }

  /** With a category and no availability filter, findByFilter is
      findByCategory with the soft-deleted books taken out. */
  lemma FilterIsLiveCategoryQuery(books: map<Id, Book>, category: string)
    ensures FindByFilter(books, Some(category), None)
            == map id | id in FindByCategory(books, Some(category)) && !books[id].deleted :: books[id]
  {
  }

  /** Asking for unavailable books gives the same page as asking for
      available ones: the query tests only whether `available` is null. */
  lemma FilterIgnoresAvailableValue(books: map<Id, Book>, category: Option<string>)
    ensures FindByFilter(books, category, Some(false)) == FindByFilter(books, category, Some(true))
  {
  }

  /** The ids of the books that are not soft-deleted and carry `title`. */
  function ActiveTitleIds(books: map<Id, Book>, title: string): (ids: set<Id>)
    ensures forall id :: id in ids <==> id in books && books[id].title == title && !books[id].deleted
  {
    set id | id in books && books[id].title == title && !books[id].deleted
  }

  /** existsByTitleAndDeletedFalse: whether the title query would match anything. */
  predicate ExistsByTitleAndDeletedFalse(books: map<Id, Book>, title: string)
    ensures ExistsByTitleAndDeletedFalse(books, title) <==> ActiveTitleIds(books, title) != {}
  {
    exists id | id in books :: books[id].title == title && !books[id].deleted
  }

  lemma SingletonHasOneElement(s: set<Id>)
    requires |s| == 1
    ensures forall a, b :: a in s && b in s ==> a == b
  {
    var x :| x in s;
    assert |s - {x}| == |s| - 1 == 0;
    assert s - {x} == {};
  }

  /** findByTitleAndDeletedFalse: null (`Ok(None)`) when no live book has the
      title, that book's id when exactly one has, and an exception when several
      have (the query is declared to return a single Book). */
  function FindByTitleAndDeletedFalse(books: map<Id, Book>, title: string): (r: Result<Option<Id>>)
    ensures r == Ok(None) <==> !ExistsByTitleAndDeletedFalse(books, title)
    ensures r.Ok? && r.value.Some? ==>
              var id := r.value.value;
              id in books && books[id].title == title && !books[id].deleted
              && ActiveTitleIds(books, title) == {id}
    ensures r.Err? <==> |ActiveTitleIds(books, title)| > 1
    ensures r.Err? ==> r.error == IncorrectResultSize
  {
    var ids := ActiveTitleIds(books, title);
    if |ids| == 0 then
      Ok(None)
    else if |ids| > 1 then
      Err(IncorrectResultSize)
    else
      SingletonHasOneElement(ids);
      var id :| id in ids;
      Ok(Some(id))
  }
}
