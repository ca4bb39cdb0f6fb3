/** Shared vocabulary of the model: Java's nullable references, the outcome of a
    service call (a value, or the exception the call throws), and Java's 32-bit
    `int` arithmetic. */
module Common {

  /** A nullable Java reference: `None` stands for `null`. */
  datatype Option<+T> = None | Some(value: T)

  /** The exceptions the service layer lets escape. */
  datatype Error =
    | NotFound(message: string)     // ResourceNotFoundException
    | BadRequest(message: string)   // BadRequestException
    | IllegalArgument               // MembershipType.valueOf on a name that is no tier
    | IncorrectResultSize           // a single-result query that matched several rows

  /** What a service call produces: its return value, or the exception it throws.
      A call that throws leaves every store as it was (the transaction rolls back). */
  datatype Result<+T> = Ok(value: T) | Err(error: Error)

  const MinInt32: int := -0x8000_0000
  const MaxInt32: int := 0x7FFF_FFFF
  const Modulus32: int := 0x1_0000_0000

  /** Java's `int`. */
  type Int32 = x: int | MinInt32 <= x <= MaxInt32

  /** Java's `a + b` on `int`: the exact sum when it fits, otherwise the sum
      wrapped around modulo 2^32. */
  function Add32(a: Int32, b: Int32): (r: Int32)
    ensures MinInt32 <= a + b <= MaxInt32 ==> r == a + b
    ensures (a + b - r) % Modulus32 == 0
  {
    var s := a + b;
    if s > MaxInt32 then s - Modulus32
    else if s < MinInt32 then s + Modulus32
    else s
  }
}
