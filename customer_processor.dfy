/**
 * `CustomerItemProcessor.process`: one raw record to a customer, to
 * "filtered out" (Java `null`, here `None`) or to the exception the parsers
 * throw.  The identifier is parsed first, then the gender looked up, then the
 * birthday parsed, and only then is the country compared.
 */
module CustomerProcessor {
  import opened Wrappers
  import opened Formats
  import opened Genders
  import opened Domain

  function Process(input: CustomerInput): (r: Result<Option<Customer>, Error>)
    // a malformed identifier fails the call, whatever else the record holds
    ensures ParseUuid(input.id).None? ==> r == Failure(InvalidIdentifier(input.id))
    // a malformed birthday fails it next, whatever the country
    ensures ParseUuid(input.id).Some? && ParseDate(input.birthday).None? ==> r == Failure(InvalidDate(input.birthday))
    ensures r.Success? <==> ParseUuid(input.id).Some? && ParseDate(input.birthday).Some?
    // once both parse, the record is kept exactly when its country is "United States"
    ensures r.Success? ==> (r.value.Some? <==> input.country == UnitedStates)
    ensures r.Success? && r.value.Some? ==>
      var c := r.value.value;
      && c.id == ParseUuid(input.id).value
      && c.birthday == ParseDate(input.birthday).value
      && c.firstName == input.firstName && c.lastName == input.lastName
      && c.gender == Lookup(input.gender)
      && c.address == Address(input.address, input.country)
      && !c.foreign
  {
    match ParseUuid(input.id)
    case None => Failure(InvalidIdentifier(input.id))
    case Some(id) =>
      var gender := Lookup(input.gender);
      match ParseDate(input.birthday)
      case None => Failure(InvalidDate(input.birthday))
      case Some(birthday) =>
        var customer := Customer(
          id, input.firstName, input.lastName, gender, birthday,
          Address(input.address, input.country), false);
        if customer.address.country == UnitedStates then Success(Some(customer)) else Success(None)
  }

  /** Every customer the processor lets through is a United States customer. */
  lemma AcceptedAreUnitedStates(input: CustomerInput)
    requires Process(input).Success? && Process(input).value.Some?
    ensures Process(input).value.value.address.country == UnitedStates
  {
  }

  /** An unrecognised gender code does not by itself reject the record: it leaves the gender absent. */
  lemma UnknownGenderIsKept(input: CustomerInput)
    requires ParseUuid(input.id).Some? && ParseDate(input.birthday).Some?
    requires input.country == UnitedStates
    requires input.gender != "male" && input.gender != "female"
    ensures Process(input).Success? && Process(input).value.Some?
    ensures Process(input).value.value.gender.None?
  {
    LookupRecognisesExactly(input.gender);
  }

  /**
   * The country test comes last: two records that differ only in their
   * country either both fail with the same error or both parse, and then
   * differ only in whether they are kept.
   */
  lemma CountryDoesNotAffectParsing(input: CustomerInput, country: string)
    ensures Process(input).Failure? <==> Process(input.(country := country)).Failure?
    ensures Process(input).Failure? ==> Process(input) == Process(input.(country := country))
  {
  }

  /**
   * An accepted customer carries the input's texts unchanged, and, for a
   * lower-case identifier and a birthday whose day exists in its month, its
   * identifier and birthday are written back as exactly the input texts.
   */
  lemma AcceptedKeepsTexts(input: CustomerInput)
    requires Process(input).Success? && Process(input).value.Some?
    requires LowerCaseText(input.id)
    requires DecimalValue(input.birthday[8..]) == Some(ParseDate(input.birthday).value.day)
    ensures FormatUuid(Process(input).value.value.id) == input.id
    ensures FormatDate(Process(input).value.value.birthday) == input.birthday
  {
    FormatParseUuid(input.id);
    FormatParseDate(input.birthday);
  }
}
