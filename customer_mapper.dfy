/** `CustomerMapper.toResponseDto`: the response record built from a customer's getters. */
module CustomerMapper {
  import opened EmailValueObject
  import opened CreditValueObject
  import opened CustomerEntity
  import opened Dtos

  /**
   * The response for a customer in the given state: id, names, email string
   * and credit amount as stored, and the ISO renderings of both timestamps.
   */
  function ResponseOf(rec: CustomerRecord): (d: CustomerResponseDto)
    ensures d.id == rec.id && d.firstName == rec.firstName && d.lastName == rec.lastName
    ensures d.email == rec.email && d.availableCredit == rec.availableCredit
    ensures d.createdAt == ToIsoString(rec.createdAt) && d.updatedAt == ToIsoString(rec.updatedAt)
    ensures RecordValid(rec) ==> d.availableCredit >= 0.0 && Email(d.email).Valid()
  {
    CustomerResponseDto(rec.id, rec.firstName, rec.lastName, rec.email, rec.availableCredit,
                        ToIsoString(rec.createdAt), ToIsoString(rec.updatedAt))
  }

  /**
   * Copies id and names verbatim, the email's normalised string, the
   * credit's amount and the ISO renderings of both timestamps. Reading the
   * customer changes nothing.
   */
  function ToResponseDto(c: Customer): (d: CustomerResponseDto)
    reads c
    ensures d.id == c.id && d.firstName == c.firstName && d.lastName == c.lastName
    ensures d.email == c.email.value && d.availableCredit == c.availableCredit.value
    ensures d.createdAt == ToIsoString(c.createdAt) && d.updatedAt == ToIsoString(c.updatedAt)
    ensures c.Valid() ==> d.availableCredit >= 0.0 && Email(d.email).Valid()
    ensures d == ResponseOf(c.Snapshot())
  {
    ResponseOf(c.Snapshot())
  }

  /**
   * The response determines the state it was built from: two customers map
   * to the same record exactly when their seven fields agree, so a customer
   * reconstituted from another's fields maps to the same record.
   */
  lemma ResponseDeterminesRecord(a: CustomerRecord, b: CustomerRecord)
    ensures ResponseOf(a) == ResponseOf(b) <==> a == b
  {
  }

  /**
   * Reconstituting a customer from its own seven fields and mapping the copy
   * gives the record that mapping the original gives: what a storage round
   * trip relies on.
   */
  method ReconstitutedResponse(c: Customer) returns (d: CustomerResponseDto)
    ensures d == ToResponseDto(c)
  {
    var copy := new Customer.Reconstitute(c.id, c.firstName, c.lastName, c.email, c.availableCredit,
                                          c.createdAt, c.updatedAt);
    d := ToResponseDto(copy);
  }
}
