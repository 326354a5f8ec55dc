# Customer credit service: a Dafny model of the domain and application core

This project models the domain and application layers of a small service.
The service keeps customers, each with a first and last name, an email and an
available credit. Six use cases work on a customer repository: create, get,
update, delete, add credit, and list by credit.

- **Value objects.** `Credit` is a non-negative amount rounded to the cent
  (`credit.dfy`). `Email` is a trimmed, lower-cased address of the shape
  `^[^\s@]+@[^\s@]+\.[^\s@]+$` (`email.dfy`, built on the string functions in
  `text.dfy`). Both are immutable, so they are Dafny datatypes with static
  factories that return a `Result`.
- **Customer aggregate** (`customer_entity.dfy`). This is a class. Its setters
  validate their input before they assign any field, and they refresh
  `updatedAt`. `id` and `createdAt` are `const` fields.
- **Repository** (`customer_repository.dfy`). `InMemoryCustomerRepository` is a
  table of plain rows keyed by id. It follows the relational adapter:
  - `save` is an upsert on the id, and an existing row keeps its `createdAt`.
  - Every read rebuilds a fresh `Customer` through `Email.create` and
    `Credit.create`.
  - The invariant `Valid()` says that each row is stored under its own id and
    holds valid values, and that no two rows share an email. The storage's
    lookup by email assumes that unique key.
- **Use cases** (`create_customer.dfy`, `get_customer.dfy`,
  `update_customer.dfy`, `delete_customer.dfy`, `add_credit.dfy`,
  `list_customers_sorted.dfy`). Each is a class holding the repository. Its
  `Execute` method is proved against a specification function or states the
  new repository contents outright. The mapper `customer_mapper.dfy` turns a
  customer into its response record (`dtos.dfy`).
- **Errors.** A thrown `Error` becomes a `Failure` carrying the same message,
  tagged as a validation, not-found or duplicate-email error (`errors.dfy`).

The clock (`new Date()`) and the id generator (`randomUUID()`) are
parameters: `now: int` (milliseconds since the epoch) and `newId: string`.

## Model

| member | source | states |
|---|---|---|
| CreditValueObject.Round2 | src/domain/value-objects/credit.vo.ts:13 | `Math.round(amount*100)/100` is a whole number of cents v with v - 0.005 <= amount < v + 0.005. |
| CreditValueObject.Credit.Create | src/domain/value-objects/credit.vo.ts:8-16 | Fails with "Credit cannot be negative" exactly when the amount is below 0. The check comes before rounding, so -0.01 fails. Otherwise the value is `Math.round(amount*100)/100`: non-negative, a whole number of cents, and within half a cent of the amount. |
| CreditValueObject.Credit.Zero | src/domain/value-objects/credit.vo.ts:18-20 | A valid credit whose value is 0. |
| CreditValueObject.Credit.Add | src/domain/value-objects/credit.vo.ts:26-28 | Is `create(value + amount)`. It fails exactly when the sum is negative. Adding a non-negative amount to a valid credit always succeeds and never lowers the value. |
| CreditValueObject.Credit.Subtract | src/domain/value-objects/credit.vo.ts:30-32 | Is `create(value - amount)`. It fails exactly when the amount exceeds the value, so it never clamps. Taking a non-negative amount from a valid credit never raises the value. |
| CreditValueObject.Credit.Equals | src/domain/value-objects/credit.vo.ts:34-36 | Two credits are `equals` exactly when they are the same credit. |
| CreditValueObject.Credit.IsGreaterThan | src/domain/value-objects/credit.vo.ts:38-40 | A greater credit is never equal, and `a.isGreaterThan(b)` holds exactly when `b.isLessThan(a)`. |
| CreditValueObject.Credit.IsLessThan | src/domain/value-objects/credit.vo.ts:42-44 | A smaller credit is never equal. |
| CreditValueObject.RoundingStaysAbove | src/domain/value-objects/credit.vo.ts:13 | Rounding a whole-cent value plus a non-negative amount never drops below that value. |
| CreditValueObject.RoundingStaysBelow | src/domain/value-objects/credit.vo.ts:13 | Rounding a whole-cent value minus a non-negative amount never rises above that value. |
| CreditValueObject.Round2IsNearestCent | src/domain/value-objects/credit.vo.ts:13 | The rounded amount is the unique whole-cent value v with v - 0.005 <= amount < v + 0.005. Halves round up. |
| CreditValueObject.RecreateValid | src/domain/value-objects/credit.vo.ts:8-16 | Creating a credit again from a valid credit's value gives that same credit back. |
| CreditValueObject.CreateIdempotent | src/domain/value-objects/credit.vo.ts:13 | `create(create(a).getValue())` equals `create(a)`. |
| CreditValueObject.ComparisonTrichotomy | src/domain/value-objects/credit.vo.ts:34-44 | Exactly one of `equals`, `isGreaterThan` and `isLessThan` holds for any pair. `equals` is equality of credits. `a > b` holds exactly when `b < a`. |
| CreditValueObject.RoundingExamples | tests/unit/value-objects/credit.test.ts:5-58 | The unit tests' cases: 100 stays 100, 100.999 rounds to 101 and 100.123 to 100.12, -0.01 and -1 fail, 100 + 50 is 150 and 100 - 30 is 70. The model adds its own half-cent case: 150.505 rounds up to 150.51. |
| Text.TrimStart | src/domain/value-objects/email.vo.ts:9 | The result is a suffix of the input. Everything dropped is whitespace, and the result does not start with whitespace. |
| Text.TrimEnd | src/domain/value-objects/email.vo.ts:9 | The result is a prefix of the input. Everything dropped is whitespace, and the result does not end with whitespace. |
| Text.Trim | src/domain/value-objects/email.vo.ts:9 | `trim` returns a trimmed slice of the input, and only whitespace lies outside that slice on either side. |
| Text.TrimIdempotent | src/domain/value-objects/email.vo.ts:9 | Trimming twice gives the same result as trimming once. |
| Text.TrimOfTrimmed | src/domain/value-objects/email.vo.ts:9 | A string that is already trimmed is left unchanged by `trim`. |
| Text.LowerChar | src/domain/value-objects/email.vo.ts:20 | Lower-casing does not change whether a character is whitespace, `@` or `.`. |
| Text.ToLower | src/domain/value-objects/email.vo.ts:20 | `toLowerCase` keeps the length and lower-cases each character in place. |
| Text.LowerCaseIsFixedPoint | src/domain/value-objects/email.vo.ts:20 | The result of `toLowerCase` is lower-case, and exactly the lower-case strings are left unchanged by it. |
| Text.LowerOfTrimmed | src/domain/value-objects/email.vo.ts:20 | Lower-casing keeps a string trimmed and is idempotent. |
| EmailValueObject.ScanAccepts | src/domain/value-objects/email.vo.ts:15-16 | The test with `emailRegex`, as a left-to-right matcher. An accepted string is non-empty and its last character is neither whitespace nor `@`. `ScanAcceptsIffPattern` proves it accepts exactly what the regular expression matches. |
| EmailValueObject.PatternIsPlainShape | src/domain/value-objects/email.vo.ts:15-18 | The regular expression matches exactly the strings with no whitespace, one `@` that is not first, and a `.` after it with a character on each side. |
| EmailValueObject.ScanAcceptsIffPattern | src/domain/value-objects/email.vo.ts:15-18 | The left-to-right matcher accepts exactly the strings the regular expression matches. |
| EmailValueObject.ScanIgnoresCase | src/domain/value-objects/email.vo.ts:15-20 | Lower-casing a string does not change the matcher's verdict on it. |
| EmailValueObject.Email.Create | src/domain/value-objects/email.vo.ts:8-21 | A missing or blank input fails with "Email cannot be empty". Any other input the matcher rejects fails with "Invalid email format". Otherwise the value is `toLowerCase(trim(input))`, and it is trimmed, lower-case and well-formed. |
| EmailValueObject.CreateFollowsPattern | src/domain/value-objects/email.vo.ts:8-21 | The same three outcomes, stated against the regular expression itself. |
| EmailValueObject.Email.Equals | src/domain/value-objects/email.vo.ts:27-29 | Two emails are `equals` exactly when they are the same email. |
| EmailValueObject.RecreateValid | src/domain/value-objects/email.vo.ts:8-21 | Creating an email again from a valid email's value gives that same email back. |
| EmailValueObject.CreateIdempotent | src/domain/value-objects/email.vo.ts:20 | `create(create(s).getValue())` equals `create(s)`. |
| EmailValueObject.EqualsIgnoresCaseAndSpace | src/domain/value-objects/email.vo.ts:27-29 | Two created emails are `equals` exactly when their inputs agree after trimming and lower-casing. |
| EmailValueObject.CreateOfAccepted | src/domain/value-objects/email.vo.ts:8-21 | A trimmed, well-formed input is kept in its lower-case form. |
| EmailValueObject.CreateExampleMixedCase | src/domain/value-objects/email.vo.ts:20 | "John@Example.com" becomes "john@example.com". |
| EmailValueObject.BlankIsEmpty | src/domain/value-objects/email.vo.ts:9-13 | Whitespace-only input reports "empty", not the format, because the empty check comes first. |
| EmailValueObject.NoAtIsInvalid | src/domain/value-objects/email.vo.ts:15-18 | A non-blank input with no `@` reports "Invalid email format". |
| EmailValueObject.CreateExampleBlank | src/domain/value-objects/email.vo.ts:9-13 | A missing input and "   " both report "Email cannot be empty". |
| EmailValueObject.CreateExampleNoAt | src/domain/value-objects/email.vo.ts:15-18 | "invalid-email" reports "Invalid email format". |
| CustomerEntity.ValidateName | src/domain/entities/customer.entity.ts:37-43 | A name fails with the given message exactly when it is empty after trimming. Otherwise the name is kept trimmed and non-empty. |
| CustomerEntity.Customer.Reconstitute | src/domain/entities/customer.entity.ts:58-76 | All seven fields are stored as given, with no validation. |
| CustomerEntity.Customer.Create | src/domain/entities/customer.entity.ts:31-56 | An empty first name fails before an empty last name is checked. On success the customer is fresh, its names are trimmed, its credit is zero and `createdAt == updatedAt == now`. A valid email gives a customer that satisfies the aggregate invariant. |
| CustomerEntity.Customer.FullName | src/domain/entities/customer.entity.ts:90-92 | The first name, one space, then the last name. |
| CustomerEntity.Customer.UpdateFirstName | src/domain/entities/customer.entity.ts:110-116 | Rejects an empty-after-trim name and changes nothing. Otherwise it changes only the first name (trimmed) and `updatedAt`. It keeps the invariant when the clock does not go back. |
| CustomerEntity.Customer.UpdateLastName | src/domain/entities/customer.entity.ts:118-124 | The same rule for the last name. |
| CustomerEntity.Customer.UpdateEmail | src/domain/entities/customer.entity.ts:126-129 | Changes only the email and `updatedAt`. It does no uniqueness check. |
| CustomerEntity.Customer.AddCredit | src/domain/entities/customer.entity.ts:131-134 | Sets the credit to `credit.add(amount)`. When the addition fails, neither the credit nor `updatedAt` changes. |
| CustomerEntity.Customer.SubtractCredit | src/domain/entities/customer.entity.ts:136-139 | Sets the credit to `credit.subtract(amount)`. Taking more than the balance fails and changes nothing. |
| CustomerMapper.ResponseOf | src/application/customer/customer.mapper.ts:5-15 | The response for a stored state. It copies id, names, email string and credit amount, and renders both timestamps in ISO form. For a valid row the credit is non-negative and the email is valid. |
| CustomerMapper.ToResponseDto | src/application/customer/customer.mapper.ts:5-15 | Copies id and names verbatim, the email's normalised string, the credit's value (non-negative for a valid customer) and the ISO renderings of both timestamps. It reads the customer and changes nothing. |
| CustomerMapper.ResponseDeterminesRecord | src/application/customer/customer.mapper.ts:5-15 | Two customer states map to the same response exactly when they are equal. |
| CustomerMapper.ReconstitutedResponse | src/application/customer/customer.mapper.ts:5-15 | Reconstituting a customer from its own fields and mapping the copy gives the same response as mapping the original. |
| CustomerRepository.InsertByCredit | src/infrastructure/persistence/prisma-customer.repository.ts:64-72 | Inserting into a credit-sorted sequence keeps it sorted and adds exactly that one row. |
| CustomerRepository.SortByCredit | src/infrastructure/persistence/prisma-customer.repository.ts:64-72 | `orderBy availableCredit` returns a sorted permutation of its input. |
| CustomerRepository.PermutationIsListing | src/infrastructure/persistence/prisma-customer.repository.ts:64-72 | A sorted permutation of the stored rows lists every stored customer exactly once. |
| CustomerRepository.Upserted | src/infrastructure/persistence/prisma-customer.repository.ts:19-29 | The row the upsert leaves. Every field comes from the saved customer, except that an existing row keeps its `createdAt`. Validity is kept. |
| CustomerRepository.WriteKeepsEmailsUnique | src/infrastructure/persistence/prisma-customer.repository.ts:19-29 | Writing a row whose email no other customer holds keeps emails unique. |
| CustomerRepository.HolderIsOnlyOwner | src/application/customer/update-customer.ts:27-33 | When emails are unique and the lookup finds the customer's own id, no other customer holds that email. |
| CustomerRepository.OwnEmailNotAnothers | src/application/customer/add-credit.ts:20-22 | When emails are unique, no other customer holds a customer's own stored email. |
| CustomerRepository.InMemoryCustomerRepository.ToDomain | src/infrastructure/persistence/prisma-customer.repository.ts:88-98 | Rebuilding a customer from a valid row gives a fresh, valid customer whose state is exactly that row. |
| CustomerRepository.InMemoryCustomerRepository.Save | src/infrastructure/persistence/prisma-customer.repository.ts:8-32 | An upsert on the id. Only that row changes, and an existing row keeps its `createdAt`. It returns the stored state and keeps the invariant. |
| CustomerRepository.InMemoryCustomerRepository.FindById | src/infrastructure/persistence/prisma-customer.repository.ts:34-44 | Returns a customer exactly when the id is stored, and that customer is the stored row. |
| CustomerRepository.InMemoryCustomerRepository.FindByEmail | src/infrastructure/persistence/prisma-customer.repository.ts:46-56 | Returns a customer exactly when some row holds the email, and that customer is the stored row with that email. |
| CustomerRepository.InMemoryCustomerRepository.FindAllSortedByCredit | src/infrastructure/persistence/prisma-customer.repository.ts:64-72 | Every stored customer exactly once, ordered by credit in the requested direction. |
| CustomerRepository.InMemoryCustomerRepository.AllRecords | src/infrastructure/persistence/prisma-customer.repository.ts:65-69 | Collects the stored rows as a sequence with the same multiset of values as the table. |
| CustomerRepository.InMemoryCustomerRepository.RebuildAll | src/infrastructure/persistence/prisma-customer.repository.ts:71 | Maps `toDomain` over the rows, element for element and in the same order. |
| CustomerRepository.InMemoryCustomerRepository.Exists | src/infrastructure/persistence/prisma-customer.repository.ts:80-86 | True exactly when the id is stored. |
| CustomerRepository.InMemoryCustomerRepository.Delete | src/infrastructure/persistence/prisma-customer.repository.ts:74-78 | Removes exactly that row and keeps the invariant. |
| CreateCustomer.Registration | src/application/customer/create-customer.ts:12-33 | Errors come in this order: an invalid email, then an email some customer already holds (looked up in normalised form), then an empty first name, then an empty last name. On success the row has the new id, trimmed names, the normalised email, credit 0 and both timestamps equal to `now`. |
| CreateCustomer.CreateCustomerUseCase.Execute | src/application/customer/create-customer.ts:12-33 | Returns the error of `Registration` and leaves the repository unchanged, or writes the registered row under the new id and returns its response. Every other row is untouched. When the id is already stored, the row is upserted over the existing one and keeps its `createdAt`, as `save` would do. It keeps emails unique. |
| CreateCustomer.CreateCustomerUseCase.Store | src/application/customer/create-customer.ts:30-32 | Saves the customer and returns the mapping of the stored row. |
| GetCustomer.GetCustomerUseCase.Execute | src/application/customer/get-customer.ts:8-16 | An absent id fails with "Customer not found". Otherwise it returns the mapping of exactly that row, so `result.id == id`. It modifies nothing. |
| UpdateCustomer.Patch | src/application/customer/update-customer.ts:17-36 | Applies the present fields in the order first name, last name, email. The first invalid field decides the error: an empty first name, then an empty last name, then the error `Email.create` reports for the new email. Absent fields, id, credit and `createdAt` keep their values, and a new email is stored normalised. |
| UpdateCustomer.UpdateCustomerUseCase.ApplyChanges | src/application/customer/update-customer.ts:17-36 | When `Patch` fails, it fails with the same error. When `Patch` succeeds, it fails with "Email already in use by another customer" exactly when a new email is given and a different customer holds it. Otherwise it leaves the loaded customer in the state `Patch` gives. |
| UpdateCustomer.UpdateCustomerUseCase.Execute | src/application/customer/update-customer.ts:10-41 | An absent id fails with "Customer not found". A failure to patch or a duplicate email fails with the matching error. Any failure leaves the repository unchanged. Otherwise only that row is replaced by the patched one, which is returned. It keeps emails unique. |
| DeleteCustomer.DeleteCustomerUseCase.Execute | src/application/customer/delete-customer.ts:6-14 | Fails with "Customer not found" exactly when the id is absent, and then removes nothing. Otherwise it removes that one row, and every other row stays as it was. |
| AddCredit.AddCreditUseCase.Execute | src/application/customer/add-credit.ts:9-25 | A missing id fails first. Then an amount <= 0 fails with "Credit amount must be greater than zero" and changes nothing. Otherwise only that customer's credit, which becomes `round((old + amount)*100)/100` and never drops, and its `updatedAt` change, and the call returns the mapping. |
| ListCustomersSorted.Direction | src/application/customer/list-customers-sorted.ts:8 | An omitted order means descending. A given order is passed through unchanged. |
| ListCustomersSorted.ListCustomersSortedUseCase.Execute | src/application/customer/list-customers-sorted.ts:8-12 | The response of every stored customer exactly once, ordered by credit in the chosen direction. It modifies nothing. |

## Left out

- HTTP handlers, routes and schemas, the serverless entry points and dependency wiring are outside the domain and application layers. This includes the schema's length limits and its `minimum: 0.01`.
- The Prisma and Supabase clients are foreign libraries reached over the network. The repository is an in-memory table that follows the Prisma adapter's semantics. Where the Supabase adapter differs (it overwrites `createdAt` on update), the Prisma adapter is followed.
- The repository interface file `src/domain/repositories/customer.repository.ts` is not part of this model. Its operations are taken from the adapter.
- `findAll` is not used by any of the six use cases, and it is not modelled.
- `randomUUID()` and `new Date()` are parameters (`newId`, `now`). The model does not require `newId` to be fresh. A colliding id is upserted over the existing row, as `save` would do.
- IEEE-754 binary floating point is not modelled. Credit amounts are exact reals, so effects such as `Math.round(1.005 * 100)` giving 100 do not arise.
- `toISOString` is abstract. `IsoTimestamp` keeps only that distinct instants render differently.
- `trim` uses the ECMAScript whitespace set. `toLowerCase` folds ASCII letters only: the Unicode case mapping is not modelled.
- `async` calls, concurrency, and the race between the email lookup and the save are not modelled. Each use case runs atomically.
- Errors raised by the storage itself are not modelled, so `save` and `delete` never fail.
- The storage's unique key on the email is modelled in two places: as part of the repository invariant, and as a precondition of `Save` that every caller discharges. A save that the database would reject is therefore not modelled as a failure.
- CustomerRepository.InMemoryCustomerRepository.Delete: requires the id to be present, since the storage rejects deleting an absent id. The delete use case checks with `Exists` first.
- CustomerRepository.InMemoryCustomerRepository.FindByEmail: picks any row holding the email. Under the invariant there is at most one such row.
- UpdateCustomer.UpdateCustomerUseCase.Execute: the steps between loading and saving are in `ApplyChanges`, and `Execute` states the result against `Patch`.
- The getters (`getValue`, `getId`, `getEmail` and the others) are field reads in Dafny, and they carry no contract of their own.
- Names and emails are strings. A `null` or `undefined` name, which the source's `!firstName` check rejects as empty, cannot be represented. Neither can an update request whose `email` is present but `null`. Such a request passes `dto.email !== undefined` and fails with "Email cannot be empty". `UpdateCustomerDto.email` is an `Option<string>`, which only says present or absent.
- Each setter reads the clock on its own, so the fields of one update may get slightly different instants. `Patch` and `ApplyChanges` use one `now` for the whole update, and `updatedAt` ends up as that instant.
