/** The plain records the use cases take and return. */
module Dtos {
  import opened Wrappers

  /**
   * `Date.prototype.toISOString` of an instant. The text format is not
   * modelled; what the model keeps is that distinct instants render
   * differently.
   */
  datatype IsoTimestamp = IsoTimestamp(epochMillis: int)

  function ToIsoString(instant: int): IsoTimestamp {
    IsoTimestamp(instant)
  }

  datatype CustomerResponseDto = CustomerResponseDto(
    id: string,
    firstName: string,
    lastName: string,
    email: string,
    availableCredit: real,
    createdAt: IsoTimestamp,
    updatedAt: IsoTimestamp)

  datatype CreateCustomerDto = CreateCustomerDto(firstName: string, lastName: string, email: string)

  /** `None` is a field left out of the request. */
  datatype UpdateCustomerDto = UpdateCustomerDto(firstName: Option<string>, lastName: Option<string>, email: Option<string>)

  datatype AddCreditDto = AddCreditDto(amount: real)
}
