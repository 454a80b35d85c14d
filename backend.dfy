/** What a call into the hosted auth/database service can do, as seen by the
    application code: the service itself is not modelled, only the outcomes
    the callers branch on. */
module Backend {
  import opened Common

  /** A query or insert: it returned data, returned an error object carrying
      a message, or threw. */
  datatype Call<T> = Returned(data: T) | Errored(message: string) | Threw

  /** The reply of `signUp` / `signIn` in lib/auth.ts: a possibly-null user and
      a possibly-null error whose `message` may be empty; or the promise
      rejected. */
  datatype AuthReply = Replied(user: Option<string>, error: Option<string>) | AuthThrew
}
