/** The `login` edge function as one step: a fixed chain of checks on the
    one live account for the email, then the `last_login_at` update and a
    session token. The password is compared with bcrypt. */
module Login {
  import opened Base
  import opened Records
  import opened Primitives
  import opened SessionToken

  /** The JSON body `{ email, password }`. */
  datatype Request = Request(email: Option<string>, password: Option<string>)

  datatype Outcome =
    | LoggedIn(account: Account, token: Jwt)
    | MissingFields
    | InvalidCredentials
    | Inactive
    | UseSso
    | CompareFailed

  /** The `error` text of a refusal; a throwing compare reports the
      library's own message, which is not modelled. */
  function Message(o: Outcome): (text: Option<string>)
    ensures text == Some("Invalid email or password") <==> o.InvalidCredentials?
  {
    match o
    case MissingFields => Some("Email and password are required")
    case InvalidCredentials => Some("Invalid email or password")
    case Inactive => Some("Account is inactive. Please contact support.")
    case UseSso => Some("Please use SSO to login")
    case _ => None
  }

  /** The HTTP status of the response; a throwing compare gives 500. */
  function Status(o: Outcome): (code: int)
    ensures code == 200 <==> o.LoggedIn?
    ensures code == 500 <==> o.CompareFailed?
    ensures code == 400 <==> o.MissingFields? || o.InvalidCredentials? || o.Inactive? || o.UseSso?
  {
    match o
    case LoggedIn(_, _) => 200
    case CompareFailed => 500
    case _ => 400
  }

  predicate Complete(req: Request) {
    Present(req.email) && Present(req.password)
  }

  /** The checks before the password: a single live account that is active
      and has a (non-empty) password hash. */
  predicate Eligible(a: Account) {
    a.status == "active" && Present(a.passwordHash)
  }

  function Handle(c: Crypto, t: Tables, req: Request, now: int): (r: Step<Outcome>)
    ensures r.tables.otpRequests == t.otpRequests
    ensures !r.outcome.LoggedIn? ==> r.tables == t
    ensures r.outcome.MissingFields? <==> !Complete(req)
    ensures r.outcome.Inactive? <==>
      Complete(req) && LiveUser(t.users, req.email.value).Some?
      && LiveUser(t.users, req.email.value).value.status != "active"
    ensures r.outcome.UseSso? <==>
      Complete(req) && LiveUser(t.users, req.email.value).Some?
      && LiveUser(t.users, req.email.value).value.status == "active"
      && !Present(LiveUser(t.users, req.email.value).value.passwordHash)
    ensures r.outcome.InvalidCredentials? <==>
      Complete(req)
      && (LiveUser(t.users, req.email.value).None?
          || (Eligible(LiveUser(t.users, req.email.value).value)
              && c.bcryptCompare(req.password.value, LiveUser(t.users, req.email.value).value.passwordHash.value) == Some(false)))
    ensures r.outcome.CompareFailed? <==>
      Complete(req) && LiveUser(t.users, req.email.value).Some?
      && Eligible(LiveUser(t.users, req.email.value).value)
      && c.bcryptCompare(req.password.value, LiveUser(t.users, req.email.value).value.passwordHash.value).None?
    ensures r.outcome.LoggedIn? <==>
      Complete(req) && LiveUser(t.users, req.email.value).Some?
      && Eligible(LiveUser(t.users, req.email.value).value)
      && c.bcryptCompare(req.password.value, LiveUser(t.users, req.email.value).value.passwordHash.value) == Some(true)
    ensures r.outcome.LoggedIn? ==>
      var a := r.outcome.account;
      LiveUser(t.users, req.email.value) == Some(a)
      && r.tables.users == SetLastLogin(t.users, a.id, now)
      && r.outcome.token == Issue(c, a.id, a.email, a.role, now)
  {
    if !Complete(req) then Step(t, MissingFields)
    else
      var email, password := req.email.value, req.password.value;
      match LiveUser(t.users, email)
      case None => Step(t, InvalidCredentials)
      case Some(user) =>
        if user.status != "active" then Step(t, Inactive)
        else if !Present(user.passwordHash) then Step(t, UseSso)
        else
          match c.bcryptCompare(password, user.passwordHash.value)
          case None => Step(t, CompareFailed)
          case Some(false) => Step(t, InvalidCredentials)
          case Some(true) =>
            var token := Issue(c, user.id, user.email, user.role, now);
            Step(t.(users := SetLastLogin(t.users, user.id, now)), LoggedIn(user, token))
  }
}
