/**
 * `CustomerEnrichmentItemProcessor.process`: sets the `foreign` flag of the
 * customer object it is given, in place, and returns that same object.  The
 * flag is set to whether the country IS "United States", despite its name.
 */
module Enrichment {
  import opened Wrappers
  import opened Formats
  import opened Genders
  import opened Domain

  /** A customer object whose fields are set in place (the Lombok bean behind `Customer`). */
  class CustomerBean {
    var id: Uuid
    var firstName: string
    var lastName: string
    var gender: Option<Gender>
    var birthday: Date
    var address: Address
    var foreign: bool

    /** An object holding the given values. */
    constructor (c: Customer)
      ensures State() == c
    {
      id, firstName, lastName := c.id, c.firstName, c.lastName;
      gender, birthday, address, foreign := c.gender, c.birthday, c.address, c.foreign;
    }

    /** The values the object holds now. */
    function State(): Customer
      reads this
    {
      Customer(id, firstName, lastName, gender, birthday, address, foreign)
    }
  }

  /** The customer values after enrichment: `foreign` from the country, every other field as it was. */
  function Enriched(c: Customer): (r: Customer)
    ensures r.foreign <==> c.address.country == UnitedStates
    ensures r.(foreign := c.foreign) == c
  {
    c.(foreign := c.address.country == UnitedStates)
  }

  /** `process`: updates the one field in place and hands back the very object it received. */
  method Process(customer: CustomerBean) returns (r: CustomerBean)
    modifies customer`foreign
    ensures r == customer
    ensures customer.State() == Enriched(old(customer.State()))
  {
    customer.foreign := UnitedStates == customer.address.country;
    return customer;
  }

  /** Enriching twice leaves the values enrichment once leaves. */
  lemma EnrichedIsIdempotent(c: Customer)
    ensures Enriched(Enriched(c)) == Enriched(c)
  {
  }

  /** Running `process` twice on one object leaves it as one run does. */
  method ProcessTwice(customer: CustomerBean) returns (r: CustomerBean)
    modifies customer`foreign
    ensures r == customer
    ensures customer.State() == Enriched(old(customer.State()))
  {
    var once := Process(customer);
    r := Process(once);
    EnrichedIsIdempotent(old(customer.State()));
  }
}
