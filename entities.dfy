/** The three persistent record kinds (entity/Book.java, entity/Borrower.java,
    entity/BorrowRecord.java) and the membership tier. Ids are naturals handed
    out fresh by the store; a `LocalDate` is a day number, so that the number of
    days from `a` to `b` is `b - a`. */
module Entities {
  import opened Common

  /** A primary key (a UUID in the source). */
  type Id = nat

  /** A calendar date as a day number. */
  type Day = int

  /** The membership tiers a borrower can hold. */
  datatype MembershipType = Basic | Premium

  /** `MembershipType.name()`. */
  function TierName(t: MembershipType): (r: string)
    ensures r == "BASIC" || r == "PREMIUM"
    ensures r == "PREMIUM" <==> t == Premium
  {
    match t
    case Basic => "BASIC"
    case Premium => "PREMIUM"
  }

  /** `MembershipType.valueOf(s)`: the tier whose name is exactly `s`; any other
      string raises IllegalArgumentException. */
  function TierValueOf(s: string): (r: Result<MembershipType>)
    ensures r.Ok? <==> s == "BASIC" || s == "PREMIUM"
    ensures r.Ok? ==> TierName(r.value) == s
    ensures r.Err? ==> r.error == IllegalArgument
  {
    if s == "BASIC" then Ok(Basic)
    else if s == "PREMIUM" then Ok(Premium)
    else Err(IllegalArgument)
  }

  /** Naming a tier and looking the name up again gives the tier back. */
  lemma TierNameRoundTrip(t: MembershipType)
    ensures TierValueOf(TierName(t)) == Ok(t)
  {
  }

  /** A catalogue entry. `title` is never null: every path that stores a book
      has checked that first. */
  datatype Book = Book(
    title: string,
    author: Option<string>,
    category: Option<string>,
    totalCopies: Int32,
    availableCopies: Int32,
    deleted: bool)

  /** A registered borrower; the loan limit is derived from the tier, not stored. */
  datatype Borrower = Borrower(
    name: Option<string>,
    email: Option<string>,
    membershipType: Option<MembershipType>)
  {
    /** getMaxBorrowLimit: PREMIUM members may hold five loans at once, every
        other borrower (BASIC, or no tier at all) two. */
    function MaxBorrowLimit(): (r: nat)
      ensures r == 5 <==> membershipType == Some(Premium)
      ensures r == 2 <==> membershipType != Some(Premium)
    {
      if membershipType == Some(Premium) then 5 else 2
    }
  }

  /** The limit looks at the tier alone: two borrowers with the same tier have
      the same limit, whatever their names, e-mails or loans. */
  lemma LimitDependsOnlyOnTier(a: Borrower, b: Borrower)
    requires a.membershipType == b.membershipType
    ensures a.MaxBorrowLimit() == b.MaxBorrowLimit()
    ensures 2 <= a.MaxBorrowLimit() <= 5
  {
  }

  /** One loan of one copy. It is active (outstanding) while `returnDate` is null. */
  datatype BorrowRecord = BorrowRecord(
    bookId: Id,
    borrowerId: Id,
    borrowDate: Day,
    dueDate: Day,
    returnDate: Option<Day>,
    fineAmount: int)
  {
    predicate IsActive()
    {
      returnDate.None?
    }
  }
}
