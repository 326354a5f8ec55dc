/** `UpdateCustomerUseCase`: change some of a customer's names and email. */
module UpdateCustomer {
  import opened Wrappers
  import opened Errors
  import opened Text
  import opened EmailValueObject
  import opened CustomerEntity
  import opened CustomerRepository
  import opened CustomerMapper
  import opened Dtos

  /**
   * The row after applying the fields present in the request, in the order
   * first name, last name, email, each validated as its setter does; the
   * first failing field decides the error. Whether another customer owns the
   * email is not considered here.
   */
  function Patch(rec: CustomerRecord, dto: UpdateCustomerDto, now: int): (r: Result<CustomerRecord, Error>)
    ensures r.Failure? <==> (dto.firstName.Some? && Trim(dto.firstName.value) == [])
                            || (dto.lastName.Some? && Trim(dto.lastName.value) == [])
                            || (dto.email.Some? && Email.Create(dto.email).Failure?)
    ensures dto.firstName.Some? && Trim(dto.firstName.value) == [] ==> r == Failure(ValidationError(FirstNameEmpty))
    ensures (dto.firstName.None? || Trim(dto.firstName.value) != [])
            && dto.lastName.Some? && Trim(dto.lastName.value) == []
            ==> r == Failure(ValidationError(LastNameEmpty))
    ensures (dto.firstName.None? || Trim(dto.firstName.value) != [])
            && (dto.lastName.None? || Trim(dto.lastName.value) != [])
            && dto.email.Some? && Email.Create(dto.email).Failure?
            ==> r == Failure(Email.Create(dto.email).error)
    ensures r.Failure? ==> r.error.ValidationError?
    ensures r.Success? ==> r.value.id == rec.id && r.value.availableCredit == rec.availableCredit
                           && r.value.createdAt == rec.createdAt
    ensures r.Success? ==> r.value.firstName == (if dto.firstName.Some? then Trim(dto.firstName.value) else rec.firstName)
    ensures r.Success? ==> r.value.lastName == (if dto.lastName.Some? then Trim(dto.lastName.value) else rec.lastName)
    ensures r.Success? && dto.email.None? ==> r.value.email == rec.email
    ensures r.Success? && dto.email.Some? ==> r.value.email == ToLower(Trim(dto.email.value)) && Email(r.value.email).Valid()
    ensures r.Success? && dto == UpdateCustomerDto(None, None, None) ==> r.value == rec
    ensures r.Success? && dto != UpdateCustomerDto(None, None, None) ==> r.value.updatedAt == now
    ensures r.Success? && RecordValid(rec) ==> RecordValid(r.value)
  {
    if dto.firstName.Some? && Trim(dto.firstName.value) == [] then
      Failure(ValidationError(FirstNameEmpty))
    else if dto.lastName.Some? && Trim(dto.lastName.value) == [] then
      Failure(ValidationError(LastNameEmpty))
    else if dto.email.Some? && Email.Create(dto.email).Failure? then
      Failure(Email.Create(dto.email).error)
    else
      Success(CustomerRecord(
        rec.id,
        if dto.firstName.Some? then Trim(dto.firstName.value) else rec.firstName,
        if dto.lastName.Some? then Trim(dto.lastName.value) else rec.lastName,
        if dto.email.Some? then Email.Create(dto.email).value.value else rec.email,
        rec.availableCredit,
        rec.createdAt,
        if dto.firstName.Some? || dto.lastName.Some? || dto.email.Some? then now else rec.updatedAt))
  }

  class UpdateCustomerUseCase {
    const customerRepository: InMemoryCustomerRepository

    constructor (customerRepository: InMemoryCustomerRepository)
      ensures this.customerRepository == customerRepository
    {
      this.customerRepository := customerRepository;
    }

    /**
     * Loads the customer, applies the present fields through its setters,
     * rejects an email another customer holds, and saves; every failure
     * happens before the save, so a failed call changes nothing.
     */
    method Execute(id: string, dto: UpdateCustomerDto, now: int) returns (r: Result<CustomerResponseDto, Error>)
      requires customerRepository.Valid()
      modifies customerRepository
      ensures customerRepository.Valid()
      ensures r.Failure? ==> customerRepository.rows == old(customerRepository.rows)
      ensures id !in old(customerRepository.rows) ==> r == Failure(NotFoundError(CustomerNotFound))
      ensures id in old(customerRepository.rows) && Patch(old(customerRepository.rows)[id], dto, now).Failure?
              ==> r == Failure(Patch(old(customerRepository.rows)[id], dto, now).error)
      ensures id in old(customerRepository.rows) && Patch(old(customerRepository.rows)[id], dto, now).Success? ==>
                var rows := old(customerRepository.rows);
                var patched := Patch(rows[id], dto, now).value;
                if dto.email.Some? && OwnedByAnother(rows, id, patched.email) then
                  r == Failure(DuplicateEmailError(EmailInUse))
                else
                  r.Success? && customerRepository.rows == rows[id := patched] && r.value == ResponseOf(patched)
    {
      ghost var rows := customerRepository.rows;
      var found := customerRepository.FindById(id);
      if found.None? {
        return Failure(NotFoundError(CustomerNotFound));
      }
      var customer := found.value;
      var applied := ApplyChanges(customer, dto, now);
      if applied.Fail? {
        return Failure(applied.error);
      }
      ghost var patched := Patch(rows[id], dto, now).value;
      assert customer.id == id && customerRepository.rows == rows;
      assert Upserted(rows, patched) == patched;
      var saved := customerRepository.Save(customer);
      return Success(ToResponseDto(saved));
    }

    /**
     * The body of `execute` between loading and saving: the present fields
     * go through the customer's setters in the order first name, last name,
     * email, and a new email is rejected when the lookup finds it on a
     * different customer. Only the loaded customer changes.
     */
    method ApplyChanges(customer: Customer, dto: UpdateCustomerDto, now: int) returns (o: Outcome<Error>)
      requires customerRepository.Valid() && customer.Valid()
      requires customer.id in customerRepository.rows && customer.Snapshot() == customerRepository.rows[customer.id]
      modifies customer
      ensures Patch(old(customer.Snapshot()), dto, now).Failure? ==>
                o == Fail(Patch(old(customer.Snapshot()), dto, now).error)
      ensures Patch(old(customer.Snapshot()), dto, now).Success? ==>
                var patched := Patch(old(customer.Snapshot()), dto, now).value;
                if dto.email.Some? && OwnedByAnother(customerRepository.rows, customer.id, patched.email) then
                  o == Fail(DuplicateEmailError(EmailInUse))
                else
                  o.Pass? && customer.Snapshot() == patched && customer.Valid()
                  && !OwnedByAnother(customerRepository.rows, customer.id, customer.email.value)
    {
      ghost var rows := customerRepository.rows;
      ghost var outcome := Patch(customer.Snapshot(), dto, now);
      if dto.firstName.Some? {
        var updated := customer.UpdateFirstName(dto.firstName.value, now);
        if updated.Fail? {
          assert outcome == Failure(updated.error);
          return updated;
        }
      }
      if dto.lastName.Some? {
        var updated := customer.UpdateLastName(dto.lastName.value, now);
        if updated.Fail? {
          assert outcome == Failure(updated.error);
          return updated;
        }
      }
      if dto.email.Some? {
        var email := Email.Create(dto.email);
        if email.Failure? {
          assert outcome == Failure(email.error);
          return Fail(email.error);
        }
        assert outcome.Success? && outcome.value.email == email.value.value;
        var existing := customerRepository.FindByEmail(email.value.value);
        if existing.Some? && existing.value.id != customer.id {
          assert OwnedByAnother(rows, customer.id, outcome.value.email);
          return Fail(DuplicateEmailError(EmailInUse));
        }
        if existing.Some? {
          HolderIsOnlyOwner(rows, customer.id, email.value.value);
        }
        assert !OwnedByAnother(rows, customer.id, outcome.value.email);
        customer.UpdateEmail(email.value, now);
      } else {
        OwnEmailNotAnothers(rows, customer.id);
      }
      assert outcome.Success? && customer.Snapshot() == outcome.value;
      return Pass;
    }
  }
}
