/** Properties of request sequences across the four edge functions: the
    signup flow from form to session, the attempt budget running out, the
    ten-minute lifetime, the resend cooldown, what a resent code leads to,
    and the table invariant over any run of requests. */
module Scenarios {
  import opened Base
  import opened Records
  import opened Primitives
  import opened Credentials
  import opened OtpCode
  import SendStep = SendOtp
  import ResendStep = ResendOtp
  import VerifyStep = VerifyOtp
  import LoginStep = Login

  /** One request to one of the edge functions, with its surroundings. */
  datatype Call =
    | SendCall(sendReq: SendStep.Request, sendEnv: SendStep.Env)
    | ResendCall(resendReq: ResendStep.Request, resendEnv: ResendStep.Env)
    | VerifyCall(verifyReq: VerifyStep.Request, verifyEnv: VerifyStep.Env)
    | LoginCall(loginReq: LoginStep.Request, now: int)

  function Apply(c: Crypto, t: Tables, call: Call): Tables {
    match call
    case SendCall(req, env) => SendStep.Handle(c, t, req, env).tables
    case ResendCall(req, env) => ResendStep.Handle(c, t, req, env).tables
    case VerifyCall(req, env) => VerifyStep.Handle(c, t, req, env).tables
    case LoginCall(req, now) => LoginStep.Handle(c, t, req, now).tables
  }

  /** The tables after serving the calls one after another. */
  function Run(c: Crypto, t: Tables, calls: seq<Call>): Tables
    decreases |calls|
  {
    if calls == [] then t else Run(c, Apply(c, t, calls[0]), calls[1..])
  }

  /** Every pending request stays under its own email, with an attempt
      budget in [0, 5] and an expiry after its creation, whatever requests
      arrive in whatever order. */
  lemma {:induction false} RunKeepsValid(c: Crypto, t: Tables, calls: seq<Call>)
    requires TablesValid(t)
    ensures TablesValid(Run(c, t, calls))
    decreases |calls|
  {
    if calls != [] {
      match calls[0] {
        case SendCall(_, _) =>
        case ResendCall(_, _) =>
        case VerifyCall(req, env) => VerifyStep.HandleShrinks(c, t, req, env);
        case LoginCall(_, _) =>
      }
      RunKeepsValid(c, Apply(c, t, calls[0]), calls[1..]);
    }
  }

  /** The code mailed at signup, entered within ten minutes, creates the
      account: an active `User` carrying the password hash of the form, the
      pending request is gone, and the session token names the new account. */
  lemma SignupThenVerify(c: Crypto, t: Tables, req: SendStep.Request, env: SendStep.Env,
                         later: int, id: string)
    requires SendStep.Admitted(t, req) && !env.insertFails
    requires env.now <= later <= env.now + SendStep.OtpExpiryMinutes * 60 * 1000
    ensures var s := SendStep.Handle(c, t, req, env);
      var v := VerifyStep.Handle(c, s.tables, VerifyStep.Request(req.email, Some(s.outcome.mail.code)),
                                 VerifyStep.Env(later, id, false));
      v.outcome.Verified?
      && v.outcome.account.email == req.email.value && v.outcome.account.name == req.name.value
      && v.outcome.account.role == User && v.outcome.account.status == "active"
      && v.outcome.account.passwordHash == Some(HashPassword(c, req.password.value, env.passwordSalt))
      && v.tables.otpRequests == t.otpRequests - {req.email.value}
      && v.tables.users == t.users + [v.outcome.account]
      && v.outcome.token.claims.userId == id && v.outcome.token.claims.role == User
  {
    SendStep.AdmittedIssues(c, t, req, env);
  }

  /** A signup whose email has no live account yet can then log in with the
      password of the form exactly when bcrypt's compare accepts that
      password against the stored PBKDF2 text. */
  lemma LoginAfterSignup(c: Crypto, t: Tables, req: SendStep.Request, env: SendStep.Env,
                         later: int, id: string, loginAt: int)
    requires SendStep.Admitted(t, req) && !env.insertFails
    requires env.now <= later <= env.now + SendStep.OtpExpiryMinutes * 60 * 1000
    requires LiveRows(t.users, req.email.value) == []
    ensures var s := SendStep.Handle(c, t, req, env);
      var v := VerifyStep.Handle(c, s.tables, VerifyStep.Request(req.email, Some(s.outcome.mail.code)),
                                 VerifyStep.Env(later, id, false));
      var l := LoginStep.Handle(c, v.tables, LoginStep.Request(req.email, req.password), loginAt);
      l.outcome.LoggedIn?
      <==> c.bcryptCompare(req.password.value, HashPassword(c, req.password.value, env.passwordSalt)) == Some(true)
  {
    SignupThenVerify(c, t, req, env, later, id);
    var s := SendStep.Handle(c, t, req, env);
    var v := VerifyStep.Handle(c, s.tables, VerifyStep.Request(req.email, Some(s.outcome.mail.code)),
                               VerifyStep.Env(later, id, false));
    var a := v.outcome.account;
    LiveRowsAppend(t.users, a, req.email.value);
    assert LiveRows(v.tables.users, req.email.value) == [a];
    assert LiveUser(v.tables.users, req.email.value) == Some(a);
  }

  /** Once ten minutes have passed, any code for the signup is answered
      with `OTP_EXPIRED` and the pending request is deleted. */
  lemma SignupExpires(c: Crypto, t: Tables, req: SendStep.Request, env: SendStep.Env,
                      otp: string, venv: VerifyStep.Env)
    requires SendStep.Admitted(t, req) && !env.insertFails
    requires venv.now > env.now + SendStep.OtpExpiryMinutes * 60 * 1000
    requires otp != ""
    ensures var s := SendStep.Handle(c, t, req, env);
      VerifyStep.Handle(c, s.tables, VerifyStep.Request(req.email, Some(otp)), venv)
        == Step(Tables(t.otpRequests - {req.email.value}, t.users), VerifyStep.Expired)
  {
  }

  /** A resend within the first minute after signup is refused with a wait
      of 1 to 60 seconds and changes nothing. */
  lemma ResendTooSoon(c: Crypto, t: Tables, req: SendStep.Request, env: SendStep.Env,
                      renv: ResendStep.Env)
    requires SendStep.Admitted(t, req) && !env.insertFails
    requires env.now <= renv.now < env.now + SendStep.ResendCooldownSeconds * 1000
    ensures var s := SendStep.Handle(c, t, req, env);
      var r := ResendStep.Handle(c, s.tables, ResendStep.Request(req.email), renv);
      r.outcome.RateLimited? && 1 <= r.outcome.retryAfter <= 60 && r.tables == s.tables
  {
  }

  /** After a resend has replaced the code, no code is ever accepted for
      that email: the resend stores a bcrypt text, which `verifyPassword`
      never matches, so verification ends in a wrong-code answer or a
      refusal, never in an account. */
  lemma ResentCodeRejected(c: Crypto, t: Tables, email: string, renv: ResendStep.Env,
                           otp: string, venv: VerifyStep.Env)
    requires ResendStep.Renewable(t, ResendStep.Request(Some(email)), renv.now)
    requires otp != ""
    ensures var r := ResendStep.Handle(c, t, ResendStep.Request(Some(email)), renv);
      var v := VerifyStep.Handle(c, r.tables, VerifyStep.Request(Some(email), Some(otp)), venv);
      !v.outcome.Verified? && !v.outcome.InsertFailed? && v.tables.users == t.users
  {
    var r := ResendStep.Handle(c, t, ResendStep.Request(Some(email)), renv);
    BcryptNeverVerifies(c, otp, c.bcryptHash(r.outcome.mail.code, renv.bcryptSalt));
  }

  /** Entering each guess in turn for one email. */
  function Guesses(c: Crypto, t: Tables, email: string, guesses: seq<string>, env: VerifyStep.Env): Tables
    decreases |guesses|
  {
    if guesses == [] then t
    else
      var next := VerifyStep.Handle(c, t, VerifyStep.Request(Some(email), Some(guesses[0])), env).tables;
      Guesses(c, next, email, guesses[1..], env)
  }

  /** Each wrong guess before expiry costs exactly one attempt and touches
      nothing else. */
  lemma {:induction false} WrongGuesses(c: Crypto, t: Tables, email: string, guesses: seq<string>,
                                        env: VerifyStep.Env)
    requires email != "" && email in t.otpRequests
    requires env.now <= t.otpRequests[email].expiresAt
    requires |guesses| <= t.otpRequests[email].attemptsLeft
    requires forall i :: 0 <= i < |guesses| ==>
      guesses[i] != "" && VerifyPassword(c, guesses[i], t.otpRequests[email].otpHash) == Ok(false)
    ensures Guesses(c, t, email, guesses, env) == Spend(t, email, |guesses|)
    decreases |guesses|
  {
    if guesses == [] {
      assert t.otpRequests[email := t.otpRequests[email]] == t.otpRequests;
    } else {
      RestStillWrong(c, t, email, guesses, env);
      WrongGuesses(c, Spend(t, email, 1), email, guesses[1..], env);
      FirstGuess(c, t, email, guesses, env);
    }
  }

  /** After one wrong guess, the rest of the guesses still meet the
      conditions on the spent tables. */
  lemma RestStillWrong(c: Crypto, t: Tables, email: string, guesses: seq<string>, env: VerifyStep.Env)
    requires email != "" && email in t.otpRequests && guesses != []
    requires env.now <= t.otpRequests[email].expiresAt
    requires |guesses| <= t.otpRequests[email].attemptsLeft
    requires forall i :: 0 <= i < |guesses| ==>
      guesses[i] != "" && VerifyPassword(c, guesses[i], t.otpRequests[email].otpHash) == Ok(false)
    ensures var next := Spend(t, email, 1);
      email in next.otpRequests && env.now <= next.otpRequests[email].expiresAt
      && |guesses[1..]| <= next.otpRequests[email].attemptsLeft
      && forall i :: 0 <= i < |guesses[1..]| ==>
        guesses[1..][i] != "" && VerifyPassword(c, guesses[1..][i], next.otpRequests[email].otpHash) == Ok(false)
  {
    var row, row' := t.otpRequests[email], Spend(t, email, 1).otpRequests[email];
    assert row'.otpHash == row.otpHash;
    assert forall i :: 0 <= i < |guesses[1..]| ==> guesses[1..][i] == guesses[i + 1];
  }

  /** The tables after `n` attempts of the request for `email` are spent. */
  function Spend(t: Tables, email: string, n: int): (after: Tables)
    requires email in t.otpRequests
    ensures after.users == t.users && after.otpRequests.Keys == t.otpRequests.Keys
    ensures after.otpRequests[email].attemptsLeft == t.otpRequests[email].attemptsLeft - n
    ensures after.otpRequests[email].(attemptsLeft := t.otpRequests[email].attemptsLeft) == t.otpRequests[email]
    ensures forall e :: e in t.otpRequests && e != email ==> after.otpRequests[e] == t.otpRequests[e]
  {
    var row := t.otpRequests[email];
    t.(otpRequests := t.otpRequests[email := row.(attemptsLeft := row.attemptsLeft - n)])
  }

  lemma SpendTwice(t: Tables, email: string, m: int, n: int)
    requires email in t.otpRequests
    ensures Spend(Spend(t, email, m), email, n) == Spend(t, email, m + n)
  {
    var row := t.otpRequests[email];
    var first, second := row.(attemptsLeft := row.attemptsLeft - m), row.(attemptsLeft := row.attemptsLeft - m - n);
    assert second == first.(attemptsLeft := first.attemptsLeft - n);
    UpdateTwice(t.otpRequests, email, first, second);
  }

  lemma UpdateTwice<K, V>(m: map<K, V>, k: K, first: V, second: V)
    ensures m[k := first][k := second] == m[k := second]
  {
  }

  /** The first of several wrong guesses spends one attempt, so the
      guesses spend one more than the rest of them. */
  lemma FirstGuess(c: Crypto, t: Tables, email: string, guesses: seq<string>, env: VerifyStep.Env)
    requires email != "" && guesses != [] && guesses[0] != "" && email in t.otpRequests
    requires env.now <= t.otpRequests[email].expiresAt && t.otpRequests[email].attemptsLeft > 0
    requires VerifyPassword(c, guesses[0], t.otpRequests[email].otpHash) == Ok(false)
    requires Guesses(c, Spend(t, email, 1), email, guesses[1..], env) == Spend(Spend(t, email, 1), email, |guesses| - 1)
    ensures Guesses(c, t, email, guesses, env) == Spend(t, email, |guesses|)
  {
    OneWrongGuess(c, t, email, guesses[0], env);
    SpendTwice(t, email, 1, |guesses| - 1);
  }

  lemma OneWrongGuess(c: Crypto, t: Tables, email: string, guess: string, env: VerifyStep.Env)
    requires email != "" && guess != "" && email in t.otpRequests
    requires env.now <= t.otpRequests[email].expiresAt && t.otpRequests[email].attemptsLeft > 0
    requires VerifyPassword(c, guess, t.otpRequests[email].otpHash) == Ok(false)
    ensures VerifyStep.Handle(c, t, VerifyStep.Request(Some(email), Some(guess)), env)
      == Step(Spend(t, email, 1), VerifyStep.InvalidOtp(t.otpRequests[email].attemptsLeft - 1))
  {
  }

  /** When the wrong guesses use up the whole budget, even the right code is
      then answered with `OTP_LOCKED` until the request expires. */
  lemma LockedAfterBudget(c: Crypto, t: Tables, email: string, guesses: seq<string>,
                          env: VerifyStep.Env, otp: string)
    requires email != "" && email in t.otpRequests
    requires env.now <= t.otpRequests[email].expiresAt
    requires |guesses| == t.otpRequests[email].attemptsLeft
    requires forall i :: 0 <= i < |guesses| ==>
      guesses[i] != "" && VerifyPassword(c, guesses[i], t.otpRequests[email].otpHash) == Ok(false)
    requires otp != ""
    ensures var after := Guesses(c, t, email, guesses, env);
      VerifyStep.Handle(c, after, VerifyStep.Request(Some(email), Some(otp)), env) == Step(after, VerifyStep.Locked)
  {
    WrongGuesses(c, t, email, guesses, env);
  }

  /** Right after signup the budget is five: five wrong guesses lock the
      request, and then even the right code is refused. */
  lemma FiveWrongGuessesLock(c: Crypto, t: Tables, req: SendStep.Request, env: SendStep.Env,
                             guesses: seq<string>, venv: VerifyStep.Env, otp: string)
    requires SendStep.Admitted(t, req) && !env.insertFails
    requires env.now <= venv.now <= env.now + SendStep.OtpExpiryMinutes * 60 * 1000
    requires |guesses| == MaxAttempts
    requires forall i :: 0 <= i < |guesses| ==>
      guesses[i] != "" && VerifyPassword(c, guesses[i], HashPassword(c, Code(env.otpDraws), env.otpSalt)) == Ok(false)
    requires otp != ""
    ensures var s := SendStep.Handle(c, t, req, env);
      var after := Guesses(c, s.tables, req.email.value, guesses, venv);
      VerifyStep.Handle(c, after, VerifyStep.Request(req.email, Some(otp)), venv).outcome == VerifyStep.Locked
  {
    SendStep.AdmittedIssues(c, t, req, env);
    var s := SendStep.Handle(c, t, req, env);
    LockedAfterBudget(c, s.tables, req.email.value, guesses, venv, otp);
  }
}
