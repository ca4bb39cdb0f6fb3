/** service/BorrowerService.java: registration and lookup of borrowers. */
module BorrowerService {
  import opened Common
  import opened Entities
  import opened Dto
  import opened BorrowRecordRepository
  import opened Database

  /** The tier `create` stores for the requested tier name: BASIC when none
      is given, otherwise the tier of that name. */
  function RequestedTier(name: Option<string>): (r: Result<MembershipType>)
    ensures r.Ok? <==> name.None? || name.value == "BASIC" || name.value == "PREMIUM"
    ensures name.None? ==> r == Ok(Basic)
    ensures r.Ok? && name.Some? ==> TierName(r.value) == name.value
  {
    if name.None? then Ok(Basic) else TierValueOf(name.value)
  }

  /** create: store a new borrower with the request's name and e-mail, and
      return the request with its id filled in. */
  method Create(db: Store, dto: BorrowerDto) returns (r: Result<BorrowerDto>)
    requires db.Valid()
    modifies db
    ensures db.Valid()
    ensures db.books == old(db.books) && db.records == old(db.records)
    ensures r.Ok? <==> RequestedTier(dto.membershipType).Ok?
    ensures r.Err? ==> r.error == IllegalArgument && unchanged(db)
    ensures r.Ok? ==>
              && r.value.id.Some?
              && var id := r.value.id.value;
                 && id !in old(db.borrowers)
                 && db.borrowers == old(db.borrowers)[id := Borrower(dto.name, dto.email, Some(RequestedTier(dto.membershipType).value))]
                 && r.value == dto.(id := Some(id))
    ensures r.Ok? && dto.membershipType.None? ==> db.borrowers[r.value.id.value].membershipType == Some(Basic)
  {
    var tier: MembershipType;
    if dto.membershipType.None? {
      tier := Basic;
    } else {
      var parsed := TierValueOf(dto.membershipType.value);
      if parsed.Err? {
        return Err(parsed.error);
      }
      tier := parsed.value;
    }
    var b := Borrower(dto.name, dto.email, Some(tier));
    var id := db.nextId;
    ConsistentAfterRegister(db.books, db.borrowers, db.records, id, b);
    db.Commit(db.books, db.borrowers[id := b], db.records, id + 1);
    r := Ok(dto.(id := Some(id)));
  }

  /** getById: the stored borrower as a DTO with the tier's name;
      `maxBorrowLimit` is not filled in and stays 0. */
  method GetById(db: Store, id: Id) returns (r: Result<BorrowerDto>)
    requires db.Valid()
    ensures id !in db.borrowers ==> r == Err(NotFound("Borrower not found"))
    ensures id in db.borrowers ==>
              var b := db.borrowers[id];
              b.membershipType.Some?
              && r == Ok(BorrowerDto(Some(id), b.name, b.email, Some(TierName(b.membershipType.value)), 0))
  {
    if id !in db.borrowers {
      return Err(NotFound("Borrower not found"));
    }
    var b := db.borrowers[id];
    r := Ok(BorrowerDto(Some(id), b.name, b.email, Some(TierName(b.membershipType.value)), 0));
  }
}
