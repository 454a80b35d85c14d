/** The sign-up page of app/signup/page.tsx: its check chain and the state its
    submit handler leaves behind. `signUp` is an abstract reply; the delayed
    redirect is recorded as scheduled. */
module Signup {
  import opened Common
  import opened Backend
  import opened Forms
  import opened Login

  /** The first failing check, in the order the handler makes them. */
  function ValidateSignup(email: string, password: string, confirm: string): (r: Option<FormError>)
    ensures r == Some(MissingFields) <==> email == "" || password == "" || confirm == ""
    ensures r == Some(InvalidEmail) <==> email != "" && password != "" && confirm != "" && !HasAt(email)
    ensures r == Some(ShortPassword) <==>
      email != "" && password != "" && confirm != "" && HasAt(email) && |password| < MinPasswordLength
    ensures r == Some(PasswordMismatch) <==>
      email != "" && password != "" && confirm != "" && HasAt(email) && |password| >= MinPasswordLength
      && password != confirm
    ensures r == None <==>
      email != "" && HasAt(email) && |password| >= MinPasswordLength && password == confirm
  {
    if email == "" || password == "" || confirm == "" then Some(MissingFields)
    else if !HasAt(email) then Some(InvalidEmail)
    else if |password| < MinPasswordLength then Some(ShortPassword)
    else if password != confirm then Some(PasswordMismatch)
    else None
  }

  /** With a matching confirmation, sign-up checks exactly what log-in
      checks; a non-matching one can only add the mismatch error. */
  lemma SignupRefinesLogin(email: string, password: string, confirm: string)
    ensures confirm == password ==> ValidateSignup(email, password, confirm) == ValidateLogin(email, password)
    ensures ValidateLogin(email, password).Some? && confirm != "" ==>
      ValidateSignup(email, password, confirm) == ValidateLogin(email, password)
    ensures ValidateSignup(email, password, confirm) == None ==> ValidateLogin(email, password) == None
  {
  }

  class SignupForm {
    var email: string
    var password: string
    var confirmPassword: string
    var loading: bool
    var error: Option<string>
    var success: bool
    /** The route a timer was set to push, if any. */
    var scheduledRedirect: Option<string>

    constructor(email: string, password: string, confirmPassword: string)
      ensures this.email == email && this.password == password && this.confirmPassword == confirmPassword
      ensures !loading && error == None && !success && scheduledRedirect == None
    {
      this.email := email;
      this.password := password;
      this.confirmPassword := confirmPassword;
      loading := false;
      error := None;
      success := false;
      scheduledRedirect := None;
    }

    /** Submitting the form; `reply` is what `signUp` would answer and is
        consulted only when every check passes (`calledSignUp`). */
    method HandleSubmit(reply: AuthReply) returns (calledSignUp: bool)
      modifies this
      ensures email == old(email) && password == old(password) && confirmPassword == old(confirmPassword)
      ensures !loading
      ensures calledSignUp <==> ValidateSignup(email, password, confirmPassword) == None
      ensures ValidateSignup(email, password, confirmPassword).Some? ==>
        error == Some(Message(ValidateSignup(email, password, confirmPassword).value)) && !success
        && scheduledRedirect == old(scheduledRedirect)
      ensures calledSignUp && reply.AuthThrew? ==>
        error == Some(UnexpectedError) && !success && scheduledRedirect == old(scheduledRedirect)
      ensures calledSignUp && reply.Replied? && reply.error.Some? ==>
        error == Some(OrElse(reply.error.value, "An error occurred during signup")) && !success
        && scheduledRedirect == old(scheduledRedirect)
      ensures calledSignUp && reply.Replied? && reply.error.None? ==>
        error == None && success && scheduledRedirect == Some(DashboardRoute)
      ensures success <==> error == None
    {
      loading := true;
      error := None;
      success := false;
      var invalid := ValidateSignup(email, password, confirmPassword);
      if invalid.Some? {
        error := Some(Message(invalid.value));
        loading := false;
        return false;
      }
      calledSignUp := true;
      match reply {
        case AuthThrew =>
          error := Some(UnexpectedError);
        case Replied(_, err) =>
          if err.Some? {
            error := Some(OrElse(err.value, "An error occurred during signup"));
          } else {
            success := true;
            scheduledRedirect := Some(DashboardRoute);
          }
      }
      loading := false;
    }
  }
}
