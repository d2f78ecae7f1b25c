/** The shared administrator check of the approval and new-document handlers. */
module AdminAuth {
  import opened Wrappers

  /**
   * `ADMIN_TOKEN` unset or empty disables the check; otherwise the `authorization` header must be
   * exactly "Bearer " followed by the token.
   */
  function Authorized(token: Option<string>, auth: Option<string>): (ok: bool)
    ensures token.None? || token.value == [] ==> ok
    ensures token.Some? && token.value != [] ==> (ok <==> auth.Some? && auth.value == "Bearer " + token.value)
  {
    token.None? || token.value == [] || auth == Some("Bearer " + token.value)
  }

  /** With a token set, a request without the header, or with the bare token, is refused. */
  lemma TokenRequired(token: string)
    requires token != []
    ensures !Authorized(Some(token), None)
    ensures !Authorized(Some(token), Some(token))
  {
    assert |"Bearer " + token| > |token|;
  }
}
