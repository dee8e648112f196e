/** The single-account check `authenticate_user`: the configured administrative
    username and password are the only pair it accepts. The warning it logs on
    a mismatch is a diagnostic and is not modelled. */
module Auth {
  import opened Failures
  import opened Config

  /** The admin identity for the configured admin pair, and `None` for every
      other pair, however close. */
  function AuthenticateUser(username: string, password: string, settings: Settings): (r: Option<Identity>)
    ensures r.Some? <==> username == settings.adminUser && password == settings.adminPassword
    ensures r.Some? ==> r.value == Identity(settings.adminUser)
  {
    if username == settings.adminUser && password == settings.adminPassword then
      Some(Identity(username))
    else
      None
  }
}
