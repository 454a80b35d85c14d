/** What the sign-up and log-in pages share: the validation failures their
    check chains can report, and the messages shown for them. */
module Forms {
  /** A failed check of a form's ordered check chain. */
  datatype FormError = MissingFields | InvalidEmail | ShortPassword | PasswordMismatch

  function Message(e: FormError): string
  {
    match e
    case MissingFields => "Please fill in all fields"
    case InvalidEmail => "Please enter a valid email address"
    case ShortPassword => "Password must be at least 6 characters long"
    case PasswordMismatch => "Passwords do not match"
  }

  /** The shortest password either form accepts. */
  const MinPasswordLength: nat := 6

  /** `email.includes('@')`. */
  predicate HasAt(email: string)
  {
    '@' in email
  }

  const UnexpectedError: string := "An unexpected error occurred"

  const DashboardRoute: string := "/dashboard"
}
