/**
 * The errors the core raises. The source throws a plain `Error` carrying a
 * message; the kind (validation, not found, duplicate email) is made explicit
 * here, and the messages are exactly the ones the source uses.
 */
module Errors {

  datatype Error =
    | ValidationError(message: string)
    | NotFoundError(message: string)
    | DuplicateEmailError(message: string)

  const CreditNegative := "Credit cannot be negative"
  const EmailEmpty := "Email cannot be empty"
  const EmailInvalidFormat := "Invalid email format"
  const FirstNameEmpty := "First name cannot be empty"
  const LastNameEmpty := "Last name cannot be empty"
  const CustomerNotFound := "Customer not found"
  const EmailAlreadyExists := "Customer with this email already exists"
  const EmailInUse := "Email already in use by another customer"
  const AmountNotPositive := "Credit amount must be greater than zero"
}
