/** `AddCreditUseCase`: add a positive amount to a customer's credit. */
module AddCredit {
  import opened Wrappers
  import opened Errors
  import opened CreditValueObject
  import opened CustomerEntity
  import opened CustomerRepository
  import opened CustomerMapper
  import opened Dtos

  class AddCreditUseCase {
    const customerRepository: InMemoryCustomerRepository

    constructor (customerRepository: InMemoryCustomerRepository)
      ensures this.customerRepository == customerRepository
    {
      this.customerRepository := customerRepository;
    }

    /**
     * The id is looked up before the amount is checked. A positive amount
     * adds to the credit (rounded to the cent), which then never decreases
     * and never fails; only that customer's credit and `updatedAt` change.
     */
    method Execute(id: string, dto: AddCreditDto, now: int) returns (r: Result<CustomerResponseDto, Error>)
      requires customerRepository.Valid()
      modifies customerRepository
      ensures customerRepository.Valid()
      ensures r.Failure? ==> customerRepository.rows == old(customerRepository.rows)
      ensures id !in old(customerRepository.rows) ==> r == Failure(NotFoundError(CustomerNotFound))
      ensures id in old(customerRepository.rows) && dto.amount <= 0.0
              ==> r == Failure(ValidationError(AmountNotPositive))
      ensures id in old(customerRepository.rows) && dto.amount > 0.0 ==>
                var before := old(customerRepository.rows)[id];
                var after := before.(availableCredit := Round2(before.availableCredit + dto.amount), updatedAt := now);
                && r.Success?
                && customerRepository.rows == old(customerRepository.rows)[id := after]
                && r.value == ResponseOf(after)
                && after.availableCredit >= before.availableCredit
    {
      var found := customerRepository.FindById(id);
      if found.None? {
        return Failure(NotFoundError(CustomerNotFound));
      }
      if dto.amount <= 0.0 {
        return Failure(ValidationError(AmountNotPositive));
      }
      var customer := found.value;
      ghost var before := old(customerRepository.rows)[id];
      assert RecordValid(before);
      RoundingStaysAbove(before.availableCredit, dto.amount);
      var added := customer.AddCredit(dto.amount, now);
      assert added.Pass? && customerRepository.rows == old(customerRepository.rows);
      ghost var after := before.(availableCredit := Round2(before.availableCredit + dto.amount), updatedAt := now);
      assert customer.Snapshot() == after;
      assert Upserted(customerRepository.rows, after) == after;
      OwnEmailNotAnothers(customerRepository.rows, id);
      var saved := customerRepository.Save(customer);
      return Success(ToResponseDto(saved));
    }
  }
}
