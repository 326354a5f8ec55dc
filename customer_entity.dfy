/**
 * The Customer aggregate: identity, names, email, credit and timestamps,
 * updated in place by its setters. Instants (`Date`) are milliseconds since
 * the epoch, and the clock is the `now` parameter of each operation that
 * reads it.
 */
module CustomerEntity {
  import opened Wrappers
  import opened Errors
  import opened Text
  import opened EmailValueObject
  import opened CreditValueObject

  /**
   * The customer's state as plain values: the row the storage adapter writes
   * (email as its string, credit as its amount).
   */
  datatype CustomerRecord = CustomerRecord(
    id: string,
    firstName: string,
    lastName: string,
    email: string,
    availableCredit: real,
    createdAt: int,
    updatedAt: int)

  /** The stored email and credit are ones the value objects' factories produce. */
  predicate RecordValid(rec: CustomerRecord) {
    Email(rec.email).Valid() && Credit(rec.availableCredit).Valid()
  }

  /** The name check shared by create and the two name setters: non-empty once trimmed, kept trimmed. */
  function ValidateName(raw: string, message: string): (r: Result<string, Error>)
    ensures r.Failure? <==> Trim(raw) == []
    ensures r.Failure? ==> r.error == ValidationError(message)
    ensures r.Success? ==> r.value == Trim(raw) && r.value != [] && IsTrimmed(r.value)
  {
    var trimmed := Trim(raw);
    if |trimmed| == 0 then Failure(ValidationError(message)) else Success(trimmed)
  }

  class Customer {
    const id: string
    var firstName: string
    var lastName: string
    var email: Email
    var availableCredit: Credit
    const createdAt: int
    var updatedAt: int

    /** The value objects are ones their factories produce. */
    predicate Valid()
      reads this
    {
      email.Valid() && availableCredit.Valid()
    }

    /** The aggregate's invariant: valid value objects, trimmed non-empty names, not updated before created. */
    ghost predicate Consistent()
      reads this
    {
      && Valid()
      && firstName != [] && IsTrimmed(firstName)
      && lastName != [] && IsTrimmed(lastName)
      && createdAt <= updatedAt
    }

    function Snapshot(): CustomerRecord
      reads this
    {
      CustomerRecord(id, firstName, lastName, email.value, availableCredit.value, createdAt, updatedAt)
    }

    /** `reconstitute`: all seven fields taken as given, nothing validated. */
    constructor Reconstitute(id: string, firstName: string, lastName: string, email: Email,
                             availableCredit: Credit, createdAt: int, updatedAt: int)
      ensures this.id == id && this.firstName == firstName && this.lastName == lastName
      ensures this.email == email && this.availableCredit == availableCredit
      ensures this.createdAt == createdAt && this.updatedAt == updatedAt
    {
      this.id := id;
      this.firstName := firstName;
      this.lastName := lastName;
      this.email := email;
      this.availableCredit := availableCredit;
      this.createdAt := createdAt;
      this.updatedAt := updatedAt;
    }

    /**
     * `create`: the first name is checked before the last name; on success
     * the names are trimmed, the credit is zero and both timestamps are `now`.
     */
    static method Create(id: string, firstName: string, lastName: string, email: Email, now: int)
      returns (r: Result<Customer, Error>)
      ensures r.Failure? <==> Trim(firstName) == [] || Trim(lastName) == []
      ensures r.Failure? ==> r.error == ValidationError(if Trim(firstName) == [] then FirstNameEmpty else LastNameEmpty)
      ensures r.Success? ==> fresh(r.value) && r.value.email == email && r.value.availableCredit == Credit.Zero()
      ensures r.Success? ==> r.value.Snapshot()
                             == CustomerRecord(id, Trim(firstName), Trim(lastName), email.value, 0.0, now, now)
      ensures r.Success? && email.Valid() ==> r.value.Consistent()
    {
      var first := ValidateName(firstName, FirstNameEmpty);
      if first.Failure? {
        return Failure(first.error);
      }
      var last := ValidateName(lastName, LastNameEmpty);
      if last.Failure? {
        return Failure(last.error);
      }
      var c := new Customer.Reconstitute(id, first.value, last.value, email, Credit.Zero(), now, now);
      return Success(c);
    }

    /** `getFullName`: the first name, one space, the last name. */
    function FullName(): (r: string)
      reads this
      ensures |r| == |firstName| + 1 + |lastName|
      ensures r[..|firstName|] == firstName && r[|firstName|] == ' ' && r[|firstName| + 1..] == lastName
    {
      firstName + " " + lastName
    }

    method UpdateFirstName(name: string, now: int) returns (o: Outcome<Error>)
      modifies this
      ensures o.Fail? <==> Trim(name) == []
      ensures o.Fail? ==> o.error == ValidationError(FirstNameEmpty) && unchanged(this)
      ensures o.Pass? ==> Snapshot() == old(Snapshot()).(firstName := Trim(name), updatedAt := now)
      ensures email == old(email) && availableCredit == old(availableCredit)
      ensures old(Consistent()) && old(updatedAt) <= now ==> Consistent()
    {
      var checked := ValidateName(name, FirstNameEmpty);
      if checked.Failure? {
        return Fail(checked.error);
      }
      firstName := checked.value;
      updatedAt := now;
      return Pass;
    }

    method UpdateLastName(name: string, now: int) returns (o: Outcome<Error>)
      modifies this
      ensures o.Fail? <==> Trim(name) == []
      ensures o.Fail? ==> o.error == ValidationError(LastNameEmpty) && unchanged(this)
      ensures o.Pass? ==> Snapshot() == old(Snapshot()).(lastName := Trim(name), updatedAt := now)
      ensures email == old(email) && availableCredit == old(availableCredit)
      ensures old(Consistent()) && old(updatedAt) <= now ==> Consistent()
    {
      var checked := ValidateName(name, LastNameEmpty);
      if checked.Failure? {
        return Fail(checked.error);
      }
      lastName := checked.value;
      updatedAt := now;
      return Pass;
    }

    /** Replaces the email; whether another customer owns it is not this method's concern. */
    method UpdateEmail(newEmail: Email, now: int)
      modifies this
      ensures email == newEmail && availableCredit == old(availableCredit)
      ensures Snapshot() == old(Snapshot()).(email := newEmail.value, updatedAt := now)
      ensures old(Consistent()) && newEmail.Valid() && old(updatedAt) <= now ==> Consistent()
    {
      email := newEmail;
      updatedAt := now;
    }

    /** Replaces the credit by `Credit.add`; when that fails, neither credit nor `updatedAt` changes. */
    method AddCredit(amount: real, now: int) returns (o: Outcome<Error>)
      modifies this
      ensures o.Fail? <==> old(availableCredit).value + amount < 0.0
      ensures o.Fail? ==> o.error == ValidationError(CreditNegative) && unchanged(this)
      ensures o.Pass? ==> availableCredit == old(availableCredit).Add(amount).value
      ensures o.Pass? ==> Snapshot() == old(Snapshot()).(availableCredit := Round2(old(availableCredit).value + amount),
                                                          updatedAt := now)
      ensures email == old(email)
      ensures old(Consistent()) && old(updatedAt) <= now ==> Consistent()
    {
      var added := availableCredit.Add(amount);
      if added.Failure? {
        return Fail(added.error);
      }
      availableCredit := added.value;
      updatedAt := now;
      return Pass;
    }

    /** Replaces the credit by `Credit.subtract`; taking more than the balance fails and changes nothing. */
    method SubtractCredit(amount: real, now: int) returns (o: Outcome<Error>)
      modifies this
      ensures o.Fail? <==> amount > old(availableCredit).value
      ensures o.Fail? ==> o.error == ValidationError(CreditNegative) && unchanged(this)
      ensures o.Pass? ==> availableCredit == old(availableCredit).Subtract(amount).value
      ensures o.Pass? ==> Snapshot() == old(Snapshot()).(availableCredit := Round2(old(availableCredit).value - amount),
                                                          updatedAt := now)
      ensures email == old(email)
      ensures old(Consistent()) && old(updatedAt) <= now ==> Consistent()
    {
      var subtracted := availableCredit.Subtract(amount);
      if subtracted.Failure? {
        return Fail(subtracted.error);
      }
      availableCredit := subtracted.value;
      updatedAt := now;
      return Pass;
    }
  }
}
