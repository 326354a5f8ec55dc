/** `ListCustomersSortedUseCase`: every customer, ordered by credit. */
module ListCustomersSorted {
  import opened Wrappers
  import opened CustomerRepository
  import opened CustomerMapper
  import opened Dtos

  /** The order used when the caller gives none. */
  function Direction(order: Option<SortOrder>): (o: SortOrder)
    ensures order.None? ==> o == Desc
    ensures order.Some? ==> o == order.value
  {
    if order.None? then Desc else order.value
  }

  class ListCustomersSortedUseCase {
    const customerRepository: InMemoryCustomerRepository

    constructor (customerRepository: InMemoryCustomerRepository)
      ensures this.customerRepository == customerRepository
    {
      this.customerRepository := customerRepository;
    }

    /**
     * Every stored customer's response exactly once, ordered by credit in
     * the requested direction (descending when none is given). Nothing is modified.
     */
    method Execute(order: Option<SortOrder>) returns (r: seq<CustomerResponseDto>)
      requires customerRepository.Valid()
      ensures forall i, j :: 0 <= i < j < |r| ==> InOrder(r[i].availableCredit, r[j].availableCredit, Direction(order))
      ensures forall i :: 0 <= i < |r| ==>
                r[i].id in customerRepository.rows && r[i] == ResponseOf(customerRepository.rows[r[i].id])
      ensures forall id :: id in customerRepository.rows ==> exists i :: 0 <= i < |r| && r[i].id == id
      ensures forall i, j :: 0 <= i < j < |r| ==> r[i].id != r[j].id
    {
      var customers;
      ghost var listing;
      customers, listing := customerRepository.FindAllSortedByCredit(Direction(order));
      r := seq(|customers|, i requires 0 <= i < |customers| reads customers => ToResponseDto(customers[i]));
      assert forall i :: 0 <= i < |r| ==> r[i] == ResponseOf(listing[i]);
    }
  }
}
