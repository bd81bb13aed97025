/** The `resend-otp` edge function as one step: find the pending request,
    drop it if expired, hold the caller off during the cooldown, and
    otherwise replace the code (hashed with bcrypt), restore the attempt
    budget and restart the cooldown. The expiry time is left as it was. */
module ResendOtp {
  import opened Base
  import opened Records
  import opened Primitives
  import opened OtpCode

  const ResendCooldownSeconds: int := 60

  /** The JSON body `{ email }`. */
  datatype Request = Request(email: Option<string>)

  /** The clock, the random digits, the salt bcrypt draws, and whether the
      mail dispatch fails. */
  datatype Env = Env(now: int, otpDraws: OtpDraws, bcryptSalt: Salt, dispatchFails: bool)

  datatype Outcome =
    | Resent(mail: Mail, resendAfterSeconds: int)
    | MissingEmail
    | NoPendingRequest
    | Expired
    | RateLimited(retryAfter: int)
    | DispatchFailed(mail: Mail)

  /** The HTTP status of the response. */
  function Status(o: Outcome): (code: int)
    ensures code == 200 <==> o.Resent?
    ensures code == 429 <==> o.RateLimited?
    ensures code == 500 <==> o.DispatchFailed?
    ensures code == 400 <==> o.MissingEmail? || o.NoPendingRequest? || o.Expired?
  {
    match o
    case Resent(_, _) => 200
    case MissingEmail => 400
    case NoPendingRequest => 400
    case Expired => 400
    case RateLimited(_) => 429
    case DispatchFailed(_) => 500
  }

  /** `Math.ceil((resendAfter - now) / 1000)` while the cooldown runs: the
      whole seconds left, rounded up. */
  function RetryAfterSeconds(resendAfter: int, now: int): (secs: int)
    requires now < resendAfter
    ensures secs >= 1
    ensures 1000 * (secs - 1) < resendAfter - now <= 1000 * secs
  {
    (resendAfter - now + 999) / 1000
  }

  /** The pending request under the request's email, if any. */
  predicate Pending(t: Tables, req: Request) {
    Present(req.email) && req.email.value in t.otpRequests
  }

  /** The pending request is neither expired nor in its cooldown. */
  predicate Renewable(t: Tables, req: Request, now: int) {
    Pending(t, req) && now <= t.otpRequests[req.email.value].expiresAt
    && now >= t.otpRequests[req.email.value].resendAfter
  }

  /** The row a successful resend leaves: new code hash, full budget, new
      cooldown; name, email, password hash, expiry and creation time kept. */
  function Renewed(row: OtpRequest, otpHash: string, now: int): (r: OtpRequest)
    ensures r.otpHash == otpHash && r.attemptsLeft == MaxAttempts
    ensures r.resendAfter == now + ResendCooldownSeconds * 1000
    ensures r.(otpHash := row.otpHash, attemptsLeft := row.attemptsLeft, resendAfter := row.resendAfter) == row
  {
    row.(otpHash := otpHash, resendAfter := now + ResendCooldownSeconds * 1000, attemptsLeft := MaxAttempts)
  }

  function Handle(c: Crypto, t: Tables, req: Request, env: Env): (r: Step<Outcome>)
    ensures TablesValid(t) ==> TablesValid(r.tables)
    ensures r.tables.users == t.users
    ensures r.outcome.MissingEmail? <==> !Present(req.email)
    ensures r.outcome.NoPendingRequest? <==> Present(req.email) && !Pending(t, req)
    ensures r.outcome.MissingEmail? || r.outcome.NoPendingRequest? || r.outcome.RateLimited?
      ==> r.tables == t
    ensures r.outcome.Expired? <==>
      Pending(t, req) && env.now > t.otpRequests[req.email.value].expiresAt
    ensures r.outcome.Expired? ==> r.tables.otpRequests == t.otpRequests - {req.email.value}
    ensures r.outcome.RateLimited? <==>
      Pending(t, req) && env.now <= t.otpRequests[req.email.value].expiresAt
      && env.now < t.otpRequests[req.email.value].resendAfter
    ensures r.outcome.RateLimited? ==>
      var wait := t.otpRequests[req.email.value].resendAfter - env.now;
      r.outcome.retryAfter >= 1 && 1000 * (r.outcome.retryAfter - 1) < wait <= 1000 * r.outcome.retryAfter
    ensures r.outcome.Resent? || r.outcome.DispatchFailed? ==>
      Pending(t, req)
      && var e := req.email.value;
      && var row := t.otpRequests[e];
      && env.now <= row.expiresAt && env.now >= row.resendAfter
      && r.tables.otpRequests == t.otpRequests[e := Renewed(row, c.bcryptHash(r.outcome.mail.code, env.bcryptSalt), env.now)]
      && r.outcome.mail == Mail(e, Code(env.otpDraws), row.name)
      && |r.outcome.mail.code| == OtpLength
    ensures r.outcome.Resent? <==> Renewable(t, req, env.now) && !env.dispatchFails
    ensures r.outcome.DispatchFailed? <==> Renewable(t, req, env.now) && env.dispatchFails
  {
    if !Present(req.email) then Step(t, MissingEmail)
    else
      var email := req.email.value;
      if email !in t.otpRequests then Step(t, NoPendingRequest)
      else
        var row := t.otpRequests[email];
        if env.now > row.expiresAt then Step(t.(otpRequests := t.otpRequests - {email}), Expired)
        else if env.now < row.resendAfter then Step(t, RateLimited(RetryAfterSeconds(row.resendAfter, env.now)))
        else
          var otp := Code(env.otpDraws);
          var updated := t.(otpRequests := t.otpRequests[email := Renewed(row, c.bcryptHash(otp, env.bcryptSalt), env.now)]);
          var mail := Mail(email, otp, row.name);
          if env.dispatchFails then Step(updated, DispatchFailed(mail))
          else Step(updated, Resent(mail, ResendCooldownSeconds))
  }
}
