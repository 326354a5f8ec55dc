/** `CreateCustomerUseCase`: register a new customer under a fresh id. */
module CreateCustomer {
  import opened Wrappers
  import opened Errors
  import opened Text
  import opened EmailValueObject
  import opened CustomerEntity
  import opened CustomerRepository
  import opened CustomerMapper
  import opened Dtos

  /**
   * The record a registration creates, or the error it reports: an invalid
   * email first, then an email some customer already holds, then an empty
   * first name, then an empty last name.
   */
  function Registration(rows: map<string, CustomerRecord>, dto: CreateCustomerDto, newId: string, now: int)
    : (r: Result<CustomerRecord, Error>)
    ensures r.Success? <==> Email.Create(Some(dto.email)).Success?
                            && !EmailTaken(rows, ToLower(Trim(dto.email)))
                            && Trim(dto.firstName) != [] && Trim(dto.lastName) != []
    ensures r.Failure? && Email.Create(Some(dto.email)).Failure? ==> r.error == Email.Create(Some(dto.email)).error
    ensures r.Failure? && Email.Create(Some(dto.email)).Success? ==>
              r.error == if EmailTaken(rows, ToLower(Trim(dto.email))) then DuplicateEmailError(EmailAlreadyExists)
                         else ValidationError(if Trim(dto.firstName) == [] then FirstNameEmpty else LastNameEmpty)
    ensures r.Success? ==> && r.value.id == newId && RecordValid(r.value)
                           && r.value.email == ToLower(Trim(dto.email)) && !EmailTaken(rows, r.value.email)
                           && r.value.firstName == Trim(dto.firstName) != [] && r.value.lastName == Trim(dto.lastName) != []
                           && r.value.availableCredit == 0.0 && r.value.createdAt == r.value.updatedAt == now
  {
    var email := Email.Create(Some(dto.email));
    if email.Failure? then
      Failure(email.error)
    else if EmailTaken(rows, email.value.value) then
      Failure(DuplicateEmailError(EmailAlreadyExists))
    else if Trim(dto.firstName) == [] then
      Failure(ValidationError(FirstNameEmpty))
    else if Trim(dto.lastName) == [] then
      Failure(ValidationError(LastNameEmpty))
    else
      Success(CustomerRecord(newId, Trim(dto.firstName), Trim(dto.lastName), email.value.value, 0.0, now, now))
  }

  class CreateCustomerUseCase {
    const customerRepository: InMemoryCustomerRepository

    constructor (customerRepository: InMemoryCustomerRepository)
      ensures this.customerRepository == customerRepository
    {
      this.customerRepository := customerRepository;
    }

    /**
     * The email is validated before the repository is consulted, the
     * duplicate lookup uses the normalised email, and the names are checked
     * only after that. On any failure nothing is saved. `newId` stands for
     * the random UUID and `now` for the clock.
     */
    method Execute(dto: CreateCustomerDto, newId: string, now: int) returns (r: Result<CustomerResponseDto, Error>)
      requires customerRepository.Valid()
      modifies customerRepository
      ensures customerRepository.Valid()
      ensures var outcome := Registration(old(customerRepository.rows), dto, newId, now);
              if outcome.Failure? then
                r == Failure(outcome.error) && customerRepository.rows == old(customerRepository.rows)
              else
                && r.Success?
                && customerRepository.rows == old(customerRepository.rows)[newId := Upserted(old(customerRepository.rows), outcome.value)]
                && r.value == ResponseOf(customerRepository.rows[newId])
    {
      ghost var rows := customerRepository.rows;
      ghost var outcome := Registration(rows, dto, newId, now);
      var email := Email.Create(Some(dto.email));
      if email.Failure? {
        assert outcome == Failure(email.error);
        return Failure(email.error);
      }
      var existing := customerRepository.FindByEmail(email.value.value);
      if existing.Some? {
        assert outcome == Failure(DuplicateEmailError(EmailAlreadyExists));
        return Failure(DuplicateEmailError(EmailAlreadyExists));
      }
      var customer := Customer.Create(newId, dto.firstName, dto.lastName, email.value, now);
      assert customerRepository.rows == rows;
      if customer.Failure? {
        assert outcome == Failure(customer.error);
        return Failure(customer.error);
      }
      assert outcome.Success? && customer.value.Snapshot() == outcome.value;
      var stored := Store(customer.value);
      return Success(stored);
    }

    /** Saves a customer whose email no other customer holds and maps the stored row to the response. */
    method Store(customer: Customer) returns (d: CustomerResponseDto)
      requires customerRepository.Valid() && customer.Valid()
      requires !OwnedByAnother(customerRepository.rows, customer.id, customer.email.value)
      modifies customerRepository
      ensures customerRepository.Valid()
      ensures customerRepository.rows
              == old(customerRepository.rows)[customer.id := Upserted(old(customerRepository.rows), customer.Snapshot())]
      ensures d == ResponseOf(customerRepository.rows[customer.id])
    {
      var saved := customerRepository.Save(customer);
      d := ToResponseDto(saved);
    }
  }
}
