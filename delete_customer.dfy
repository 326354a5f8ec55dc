/** `DeleteCustomerUseCase`: remove a customer, after checking it exists. */
module DeleteCustomer {
  import opened Wrappers
  import opened Errors
  import opened CustomerRepository

  class DeleteCustomerUseCase {
    const customerRepository: InMemoryCustomerRepository

    constructor (customerRepository: InMemoryCustomerRepository)
      ensures this.customerRepository == customerRepository
    {
      this.customerRepository := customerRepository;
    }

    /**
     * Fails with "Customer not found" and deletes nothing when the id is
     * absent; otherwise removes that one row and leaves every other row as it was.
     */
    method Execute(id: string) returns (r: Outcome<Error>)
      requires customerRepository.Valid()
      modifies customerRepository
      ensures customerRepository.Valid()
      ensures r.Fail? <==> id !in old(customerRepository.rows)
      ensures r.Fail? ==> r.error == NotFoundError(CustomerNotFound)
                          && customerRepository.rows == old(customerRepository.rows)
      ensures r.Pass? ==> customerRepository.rows == old(customerRepository.rows) - {id}
    {
      var present := customerRepository.Exists(id);
      if !present {
        return Fail(NotFoundError(CustomerNotFound));
      }
      customerRepository.Delete(id);
      return Pass;
    }
  }
}
