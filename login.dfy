/** The log-in page of app/login/page.tsx: its check chain and the state its
    submit handler leaves behind. `signIn` is an abstract reply. */
module Login {
  import opened Common
  import opened Backend
  import opened Forms

  /** The first failing check, in the order the handler makes them. */
  function ValidateLogin(email: string, password: string): (r: Option<FormError>)
    ensures r == Some(MissingFields) <==> email == "" || password == ""
    ensures r == Some(InvalidEmail) <==> email != "" && password != "" && !HasAt(email)
    ensures r == Some(ShortPassword) <==> email != "" && password != "" && HasAt(email) && |password| < MinPasswordLength
    ensures r != Some(PasswordMismatch)
    ensures r == None <==> email != "" && password != "" && HasAt(email) && |password| >= MinPasswordLength
  {
    if email == "" || password == "" then Some(MissingFields)
    else if !HasAt(email) then Some(InvalidEmail)
    else if |password| < MinPasswordLength then Some(ShortPassword)
    else None
  }

  class LoginForm {
    var email: string
    var password: string
    var loading: bool
    var error: Option<string>
    /** The route `router.push` was called with, if any. */
    var navigatedTo: Option<string>

    constructor(email: string, password: string)
      ensures this.email == email && this.password == password
      ensures !loading && error == None && navigatedTo == None
    {
      this.email := email;
      this.password := password;
      loading := false;
      error := None;
      navigatedTo := None;
    }

    /** Submitting the form; `reply` is what `signIn` would answer and is
        consulted only when every check passes (`calledSignIn`). */
    method HandleSubmit(reply: AuthReply) returns (calledSignIn: bool)
      modifies this
      ensures email == old(email) && password == old(password)
      ensures !loading
      ensures calledSignIn <==> ValidateLogin(email, password) == None
      ensures ValidateLogin(email, password).Some? ==>
        error == Some(Message(ValidateLogin(email, password).value)) && navigatedTo == old(navigatedTo)
      ensures calledSignIn && reply.AuthThrew? ==> error == Some(UnexpectedError) && navigatedTo == old(navigatedTo)
      ensures calledSignIn && reply.Replied? && reply.error.Some? ==>
        error == Some(OrElse(reply.error.value, "An error occurred during login")) && navigatedTo == old(navigatedTo)
      ensures calledSignIn && reply.Replied? && reply.error.None? ==>
        error == None && navigatedTo == (if reply.user.Some? then Some(DashboardRoute) else old(navigatedTo))
      ensures navigatedTo != old(navigatedTo) ==> calledSignIn && error == None
    {
      loading := true;
      error := None;
      var invalid := ValidateLogin(email, password);
      if invalid.Some? {
        error := Some(Message(invalid.value));
        loading := false;
        return false;
      }
      calledSignIn := true;
      match reply {
        case AuthThrew =>
          error := Some(UnexpectedError);
        case Replied(user, err) =>
          if err.Some? {
            error := Some(OrElse(err.value, "An error occurred during login"));
          } else if user.Some? {
            navigatedTo := Some(DashboardRoute);
          }
      }
      loading := false;
    }
  }
}
