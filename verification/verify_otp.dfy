/** The `verify-otp` edge function as one step: expiry is checked before the
    attempt budget, a wrong code costs one attempt, and the right code turns
    the pending request into an active `User` account and a session token. */
module VerifyOtp {
  import opened Base
  import opened Records
  import opened Primitives
  import opened Credentials
  import opened SessionToken

  /** The JSON body `{ email, otp }`. */
  datatype Request = Request(email: Option<string>, otp: Option<string>)

  /** The clock, the id the database assigns to a new account, and whether
      that insert fails. */
  datatype Env = Env(now: int, newUserId: string, insertFails: bool)

  datatype Outcome =
    | Verified(account: Account, token: Jwt)
    | MissingFields
    | NotFound
    | Expired
    | Locked
    | InvalidOtp(attemptsLeft: int)
    | HashUnreadable
    | InsertFailed

  /** The machine-readable `error` code of the response, if it has one. */
  function ErrorCode(o: Outcome): (code: Option<string>)
    ensures code == Some("OTP_EXPIRED") <==> o.NotFound? || o.Expired?
    ensures code == Some("OTP_LOCKED") <==> o.Locked?
    ensures code == Some("INVALID_OTP") <==> o.InvalidOtp?
  {
    match o
    case NotFound => Some("OTP_EXPIRED")
    case Expired => Some("OTP_EXPIRED")
    case Locked => Some("OTP_LOCKED")
    case InvalidOtp(_) => Some("INVALID_OTP")
    case _ => None
  }

  /** The HTTP status of the response; the two thrown errors give 500. */
  function Status(o: Outcome): (code: int)
    ensures code == 200 <==> o.Verified?
    ensures code == 500 <==> o.HashUnreadable? || o.InsertFailed?
    ensures code == 400 <==> o.MissingFields? || o.NotFound? || o.Expired? || o.Locked? || o.InvalidOtp?
  {
    match o
    case Verified(_, _) => 200
    case HashUnreadable => 500
    case InsertFailed => 500
    case _ => 400
  }

  predicate Complete(req: Request) {
    Present(req.email) && Present(req.otp)
  }

  /** The request is complete and a row exists that is neither expired nor
      locked: the code is compared. */
  predicate Open(t: Tables, req: Request, now: int) {
    Complete(req) && req.email.value in t.otpRequests
    && now <= t.otpRequests[req.email.value].expiresAt
    && t.otpRequests[req.email.value].attemptsLeft > 0
  }

  /** `verifyPassword(otp, otpRequest.otp_hash)` for the pending request. */
  function Checked(c: Crypto, t: Tables, req: Request): Result<bool, VerifyError>
    requires Complete(req) && req.email.value in t.otpRequests
  {
    VerifyPassword(c, req.otp.value, t.otpRequests[req.email.value].otpHash)
  }

  /** The account `verify-otp` inserts for a pending request. */
  function NewAccount(row: OtpRequest, id: string, now: int): (a: Account)
    ensures a.name == row.name && a.email == row.email && a.passwordHash == Some(row.passwordHash)
    ensures a.role == User && a.status == "active" && !a.isDeleted
    ensures a.id == id && a.lastLoginAt == Some(now) && a.createdAt == now
  {
    Account(id, row.email, row.name, Some(row.passwordHash), User, "active", false, Some(now), now, now)
  }

  function Handle(c: Crypto, t: Tables, req: Request, env: Env): (r: Step<Outcome>)
    ensures r.outcome.MissingFields? <==> !Complete(req)
    ensures r.outcome.NotFound? <==> Complete(req) && req.email.value !in t.otpRequests
    ensures r.outcome.Expired? <==>
      Complete(req) && req.email.value in t.otpRequests && env.now > t.otpRequests[req.email.value].expiresAt
    ensures r.outcome.Expired? ==>
      r.tables == t.(otpRequests := t.otpRequests - {req.email.value})
    ensures r.outcome.Locked? <==>
      Complete(req) && req.email.value in t.otpRequests
      && env.now <= t.otpRequests[req.email.value].expiresAt
      && t.otpRequests[req.email.value].attemptsLeft <= 0
    ensures (r.outcome.MissingFields? || r.outcome.NotFound? || r.outcome.Locked?
             || r.outcome.HashUnreadable? || r.outcome.InsertFailed?) ==> r.tables == t
    ensures r.outcome.HashUnreadable? <==>
      Open(t, req, env.now) && Checked(c, t, req).Err?
    ensures r.outcome.InvalidOtp? <==>
      Open(t, req, env.now) && Checked(c, t, req) == Ok(false)
    ensures r.outcome.InvalidOtp? ==>
      var e := req.email.value;
      var row := t.otpRequests[e];
      r.outcome.attemptsLeft == row.attemptsLeft - 1
      && r.tables == t.(otpRequests := t.otpRequests[e := row.(attemptsLeft := row.attemptsLeft - 1)])
    ensures r.outcome.InsertFailed? <==>
      Open(t, req, env.now) && Checked(c, t, req) == Ok(true) && env.insertFails
    ensures r.outcome.Verified? <==>
      Open(t, req, env.now) && Checked(c, t, req) == Ok(true) && !env.insertFails
    ensures r.outcome.Verified? ==>
      var e := req.email.value;
      var account := r.outcome.account;
      account == NewAccount(t.otpRequests[e], env.newUserId, env.now)
      && r.tables == Tables(t.otpRequests - {e}, t.users + [account])
      && r.outcome.token == Issue(c, account.id, account.email, account.role, env.now)
  {
    if !Complete(req) then Step(t, MissingFields)
    else
      var email, otp := req.email.value, req.otp.value;
      if email !in t.otpRequests then Step(t, NotFound)
      else
        var row := t.otpRequests[email];
        if env.now > row.expiresAt then Step(t.(otpRequests := t.otpRequests - {email}), Expired)
        else if row.attemptsLeft <= 0 then Step(t, Locked)
        else
          match VerifyPassword(c, otp, row.otpHash)
          case Err(_) => Step(t, HashUnreadable)
          case Ok(false) =>
            var left := row.attemptsLeft - 1;
            Step(t.(otpRequests := t.otpRequests[email := row.(attemptsLeft := left)]), InvalidOtp(left))
          case Ok(true) =>
            if env.insertFails then Step(t, InsertFailed)
            else
              var account := NewAccount(row, env.newUserId, env.now);
              var token := Issue(c, account.id, account.email, account.role, env.now);
              Step(Tables(t.otpRequests - {email}, t.users + [account]), Verified(account, token))
  }

  /** Verification never adds a pending request nor raises an attempt
      budget, and it keeps every pending request valid. */
  lemma HandleShrinks(c: Crypto, t: Tables, req: Request, env: Env)
    ensures var after := Handle(c, t, req, env).tables;
      TablesValid(t) ==> TablesValid(after)
    ensures var after := Handle(c, t, req, env).tables;
      forall e :: e in after.otpRequests ==>
        e in t.otpRequests && after.otpRequests[e].attemptsLeft <= t.otpRequests[e].attemptsLeft
  {
  }
}
