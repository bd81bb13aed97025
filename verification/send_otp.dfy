/** The `send-otp` edge function as one step over the tables: validate the
    signup form, refuse an already active account, then replace any pending
    request for the email with a fresh one and mail the code. */
module SendOtp {
  import opened Base
  import opened Records
  import opened Primitives
  import opened Credentials
  import opened OtpCode

  const MinPasswordLength: nat := 8
  const OtpExpiryMinutes: int := 10
  const ResendCooldownSeconds: int := 60

  /** The JSON body `{ name, email, password }`. */
  datatype Request = Request(name: Option<string>, email: Option<string>, password: Option<string>)

  /** What the handler takes from its surroundings: the clock, the random
      digits and salts, and whether the insert or the mail dispatch fails. */
  datatype Env = Env(
    now: int,
    otpDraws: OtpDraws,
    otpSalt: Salt,
    passwordSalt: Salt,
    insertFails: bool,
    dispatchFails: bool)

  datatype Outcome =
    | Sent(mail: Mail, resendAfterSeconds: int)
    | MissingFields
    | PasswordTooShort
    | AlreadyRegistered
    | InsertFailed
    | DispatchFailed(mail: Mail)

  /** The HTTP status of the response. */
  function Status(o: Outcome): (code: int)
    ensures code == 200 <==> o.Sent?
    ensures code == 500 <==> o.InsertFailed? || o.DispatchFailed?
    ensures code == 400 <==> o.MissingFields? || o.PasswordTooShort? || o.AlreadyRegistered?
  {
    match o
    case Sent(_, _) => 200
    case MissingFields => 400
    case PasswordTooShort => 400
    case AlreadyRegistered => 400
    case InsertFailed => 500
    case DispatchFailed(_) => 500
  }

  /** `name && email && password` */
  predicate Complete(req: Request) {
    Present(req.name) && Present(req.email) && Present(req.password)
  }

  /** The lookup finds the one live account for the email and it is active. */
  predicate Registered(users: seq<Account>, email: string) {
    var found := LiveUser(users, email);
    found.Some? && found.value.status == "active"
  }

  /** The request passes validation and the account check. */
  predicate Admitted(t: Tables, req: Request) {
    Complete(req) && Utf16Length(req.password.value) >= MinPasswordLength
    && !Registered(t.users, req.email.value)
  }

  /** What a successful insert leaves: exactly one pending request for the
      email, with a full attempt budget, a ten-minute lifetime and a
      one-minute resend cooldown, whose hashes verify the mailed code and the
      password; every other email's request is as it was. */
  ghost predicate Issued(c: Crypto, t: Tables, req: Request, env: Env, after: Tables, mail: Mail)
    requires Complete(req)
  {
    var e := req.email.value;
    e in after.otpRequests
    && after.otpRequests - {e} == t.otpRequests - {e}
    && after.users == t.users
    && var row := after.otpRequests[e];
    && row.email == e && row.name == req.name.value
    && row.attemptsLeft == MaxAttempts
    && row.createdAt == env.now
    && row.expiresAt == env.now + OtpExpiryMinutes * 60 * 1000
    && row.resendAfter == env.now + ResendCooldownSeconds * 1000
    && mail.to == e && mail.name == row.name
    && |mail.code| == OtpLength
    && (forall i :: 0 <= i < |mail.code| ==> IsDecimalDigit(mail.code[i]))
    && row.otpHash == HashPassword(c, mail.code, env.otpSalt)
    && row.passwordHash == HashPassword(c, req.password.value, env.passwordSalt)
    && row.otpHash != mail.code
    && VerifyPassword(c, mail.code, row.otpHash) == Ok(true)
    && VerifyPassword(c, req.password.value, row.passwordHash) == Ok(true)
  }

  function Handle(c: Crypto, t: Tables, req: Request, env: Env): (r: Step<Outcome>)
    ensures TablesValid(t) ==> TablesValid(r.tables)
    ensures r.tables.users == t.users
    ensures r.outcome.MissingFields? <==> !Complete(req)
    ensures r.outcome.PasswordTooShort? <==>
      Complete(req) && Utf16Length(req.password.value) < MinPasswordLength
    ensures r.outcome.AlreadyRegistered? <==>
      Complete(req) && Utf16Length(req.password.value) >= MinPasswordLength
      && Registered(t.users, req.email.value)
    ensures r.outcome.MissingFields? || r.outcome.PasswordTooShort? || r.outcome.AlreadyRegistered?
      ==> r.tables == t
    ensures r.outcome.InsertFailed? <==> Admitted(t, req) && env.insertFails
    ensures r.outcome.InsertFailed? ==>
      r.tables.otpRequests == t.otpRequests - {req.email.value}
    ensures r.outcome.Sent? <==> Admitted(t, req) && !env.insertFails && !env.dispatchFails
    ensures r.outcome.Sent? ==> r.outcome.resendAfterSeconds == ResendCooldownSeconds
  {
    if !Complete(req) then Step(t, MissingFields)
    else
      var name, email, password := req.name.value, req.email.value, req.password.value;
      if Utf16Length(password) < MinPasswordLength then Step(t, PasswordTooShort)
      else if Registered(t.users, email) then Step(t, AlreadyRegistered)
      else
        var otp := Code(env.otpDraws);
        var row := OtpRequest(
          email, name,
          HashPassword(c, password, env.passwordSalt),
          HashPassword(c, otp, env.otpSalt),
          MaxAttempts,
          env.now + OtpExpiryMinutes * 60 * 1000,
          env.now + ResendCooldownSeconds * 1000,
          env.now);
        var cleared := t.(otpRequests := t.otpRequests - {email});
        if env.insertFails then Step(cleared, InsertFailed)
        else
          var inserted := cleared.(otpRequests := cleared.otpRequests[email := row]);
          var mail := Mail(email, otp, name);
          if env.dispatchFails then Step(inserted, DispatchFailed(mail))
          else Step(inserted, Sent(mail, ResendCooldownSeconds))
  }

  /** A signup that gets past validation and the insert leaves exactly the
      pending request `Issued` describes, whether or not the mail goes out. */
  lemma AdmittedIssues(c: Crypto, t: Tables, req: Request, env: Env)
    requires Admitted(t, req) && !env.insertFails
    ensures var r := Handle(c, t, req, env);
      (r.outcome.Sent? || r.outcome.DispatchFailed?)
      && Issued(c, t, req, env, r.tables, r.outcome.mail)
  {
    var otp := Code(env.otpDraws);
    HashThenVerify(c, otp, env.otpSalt);
    HashThenVerify(c, req.password.value, env.passwordSalt);
  }
}
