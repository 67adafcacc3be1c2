/** The records that flow through the job: the raw input row, the customer and its address. */
module Domain {
  import opened Wrappers
  import opened Genders
  import opened Formats

  /** A decoded input row: seven texts, no conversion yet (`CustomerInput`). */
  datatype CustomerInput = CustomerInput(
    id: string,
    firstName: string,
    lastName: string,
    gender: string,
    birthday: string,
    address: string,
    country: string)

  /** A street with its country (`Address`). */
  datatype Address = Address(street: string, country: string)

  /**
   * A transformed customer (`Customer`).  The gender is absent (Java `null`)
   * when the input code was not recognised; `foreign` keeps the Java default
   * `false` until the enrichment step sets it.
   */
  datatype Customer = Customer(
    id: Uuid,
    firstName: string,
    lastName: string,
    gender: Option<Gender>,
    birthday: Date,
    address: Address,
    foreign: bool)

  /** What the Java code throws instead of returning. */
  datatype Error =
    | MalformedLine(line: string, tokens: nat)  // the tokenizer found a token count other than seven
    | InvalidIdentifier(text: string)           // UUID.fromString rejected the text
    | InvalidDate(text: string)                 // LocalDate.parse rejected the text
    | NullGender                                // the writer dereferenced a null gender

  /** The accepted-country constant of both processors. */
  const UnitedStates: string := "United States"
}
