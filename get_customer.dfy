/** `GetCustomerUseCase`: look one customer up by id. */
module GetCustomer {
  import opened Wrappers
  import opened Errors
  import opened CustomerRepository
  import opened CustomerMapper
  import opened Dtos

  class GetCustomerUseCase {
    const customerRepository: InMemoryCustomerRepository

    constructor (customerRepository: InMemoryCustomerRepository)
      ensures this.customerRepository == customerRepository
    {
      this.customerRepository := customerRepository;
    }

    /** Reads exactly the requested row and changes nothing (the method may modify nothing). */
    method Execute(id: string) returns (r: Result<CustomerResponseDto, Error>)
      requires customerRepository.Valid()
      ensures r.Failure? <==> id !in customerRepository.rows
      ensures r.Failure? ==> r.error == NotFoundError(CustomerNotFound)
      ensures r.Success? ==> r.value == ResponseOf(customerRepository.rows[id]) && r.value.id == id
    {
      var customer := customerRepository.FindById(id);
      if customer.None? {
        return Failure(NotFoundError(CustomerNotFound));
      }
      return Success(ToResponseDto(customer.value));
    }
  }
}
