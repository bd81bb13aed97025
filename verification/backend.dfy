/** The backing store shared by the four edge functions, as an object whose
    two tables the handlers update in place. Each handler method follows its
    source step by step and is proved to leave exactly the tables and
    response its step function describes. */
module Backend {
  import opened Base
  import opened Records
  import opened Primitives
  import opened Credentials
  import opened OtpCode
  import opened SessionToken
  import SendStep = SendOtp
  import ResendStep = ResendOtp
  import VerifyStep = VerifyOtp
  import LoginStep = Login

  class AuthBackend {
    var otpRequests: map<string, OtpRequest>
    var users: seq<Account>
    const crypto: Crypto

    function Snapshot(): Tables
      reads this
    {
      Tables(otpRequests, users)
    }

    ghost predicate Valid()
      reads this
    {
      TablesValid(Snapshot())
    }

    constructor (crypto: Crypto)
      ensures Snapshot() == Tables(map[], []) && this.crypto == crypto
      ensures Valid()
    {
      otpRequests := map[];
      users := [];
      this.crypto := crypto;
    }

    /** `send-otp` */
    method SendOtp(req: SendStep.Request, env: SendStep.Env) returns (outcome: SendStep.Outcome)
      modifies this
      ensures Step(Snapshot(), outcome) == SendStep.Handle(crypto, old(Snapshot()), req, env)
      ensures old(Valid()) ==> Valid()
    {
      if !SendStep.Complete(req) {
        return SendStep.MissingFields;
      }
      var name, email, password := req.name.value, req.email.value, req.password.value;
      if Utf16Length(password) < SendStep.MinPasswordLength {
        return SendStep.PasswordTooShort;
      }
      var existing := LiveUser(users, email);
      if existing.Some? && existing.value.status == "active" {
        return SendStep.AlreadyRegistered;
      }
      var otp := Generate(OtpLength, env.otpDraws);
      assert SendStep.Admitted(Snapshot(), req);
      var otpHash := HashPassword(crypto, otp, env.otpSalt);
      var passwordHash := HashPassword(crypto, password, env.passwordSalt);
      var expiresAt := env.now + SendStep.OtpExpiryMinutes * 60 * 1000;
      var resendAfter := env.now + SendStep.ResendCooldownSeconds * 1000;
      otpRequests := otpRequests - {email};
      if env.insertFails {
        return SendStep.InsertFailed;
      }
      otpRequests := otpRequests[email := OtpRequest(email, name, passwordHash, otpHash,
                                                     MaxAttempts, expiresAt, resendAfter, env.now)];
      var mail := Mail(email, otp, name);
      if env.dispatchFails {
        return SendStep.DispatchFailed(mail);
      }
      return SendStep.Sent(mail, SendStep.ResendCooldownSeconds);
    }

    /** `resend-otp` */
    method ResendOtp(req: ResendStep.Request, env: ResendStep.Env) returns (outcome: ResendStep.Outcome)
      modifies this
      ensures Step(Snapshot(), outcome) == ResendStep.Handle(crypto, old(Snapshot()), req, env)
      ensures old(Valid()) ==> Valid()
    {
      if !Present(req.email) {
        return ResendStep.MissingEmail;
      }
      var email := req.email.value;
      if email !in otpRequests {
        return ResendStep.NoPendingRequest;
      }
      var row := otpRequests[email];
      if env.now > row.expiresAt {
        otpRequests := otpRequests - {email};
        return ResendStep.Expired;
      }
      if env.now < row.resendAfter {
        var retryAfter := ResendStep.RetryAfterSeconds(row.resendAfter, env.now);
        return ResendStep.RateLimited(retryAfter);
      }
      var otp := Generate(OtpLength, env.otpDraws);
      var otpHash := crypto.bcryptHash(otp, env.bcryptSalt);
      var newResendAfter := env.now + ResendStep.ResendCooldownSeconds * 1000;
      otpRequests := otpRequests[email := row.(otpHash := otpHash, resendAfter := newResendAfter,
                                               attemptsLeft := MaxAttempts)];
      var mail := Mail(email, otp, row.name);
      if env.dispatchFails {
        return ResendStep.DispatchFailed(mail);
      }
      return ResendStep.Resent(mail, ResendStep.ResendCooldownSeconds);
    }

    /** `verify-otp` */
    method VerifyOtp(req: VerifyStep.Request, env: VerifyStep.Env) returns (outcome: VerifyStep.Outcome)
      modifies this
      ensures Step(Snapshot(), outcome) == VerifyStep.Handle(crypto, old(Snapshot()), req, env)
      ensures old(Valid()) ==> Valid()
    {
      VerifyStep.HandleShrinks(crypto, Snapshot(), req, env);
      if !VerifyStep.Complete(req) {
        return VerifyStep.MissingFields;
      }
      var email, otp := req.email.value, req.otp.value;
      if email !in otpRequests {
        return VerifyStep.NotFound;
      }
      var row := otpRequests[email];
      if env.now > row.expiresAt {
        otpRequests := otpRequests - {email};
        return VerifyStep.Expired;
      }
      if row.attemptsLeft <= 0 {
        return VerifyStep.Locked;
      }
      outcome := CheckCode(req, env);
    }

    /** The part of `verify-otp` after the pending request was found open:
        compare the code, then count the failure or create the account. */
    method CheckCode(req: VerifyStep.Request, env: VerifyStep.Env) returns (outcome: VerifyStep.Outcome)
      requires VerifyStep.Open(Snapshot(), req, env.now)
      modifies this
      ensures Step(Snapshot(), outcome) == VerifyStep.Handle(crypto, old(Snapshot()), req, env)
      ensures old(Valid()) ==> Valid()
    {
      VerifyStep.HandleShrinks(crypto, Snapshot(), req, env);
      var email, otp := req.email.value, req.otp.value;
      var row := otpRequests[email];
      var isValid := VerifyPassword(crypto, otp, row.otpHash);
      if isValid.Err? {
        return VerifyStep.HashUnreadable;
      }
      if !isValid.value {
        var newAttempts := row.attemptsLeft - 1;
        otpRequests := otpRequests[email := row.(attemptsLeft := newAttempts)];
        return VerifyStep.InvalidOtp(newAttempts);
      }
      if env.insertFails {
        return VerifyStep.InsertFailed;
      }
      var newUser := Account(env.newUserId, row.email, row.name, Some(row.passwordHash),
                             User, "active", false, Some(env.now), env.now, env.now);
      users := users + [newUser];
      otpRequests := otpRequests - {email};
      var token := Issue(crypto, newUser.id, newUser.email, newUser.role, env.now);
      return VerifyStep.Verified(newUser, token);
    }

    /** `login` */
    method Login(req: LoginStep.Request, now: int) returns (outcome: LoginStep.Outcome)
      modifies this
      ensures Step(Snapshot(), outcome) == LoginStep.Handle(crypto, old(Snapshot()), req, now)
      ensures otpRequests == old(otpRequests)
    {
      if !LoginStep.Complete(req) {
        return LoginStep.MissingFields;
      }
      var email, password := req.email.value, req.password.value;
      var found := LiveUser(users, email);
      if found.None? {
        return LoginStep.InvalidCredentials;
      }
      var user := found.value;
      if user.status != "active" {
        return LoginStep.Inactive;
      }
      if !Present(user.passwordHash) {
        return LoginStep.UseSso;
      }
      var isValid := crypto.bcryptCompare(password, user.passwordHash.value);
      if isValid.None? {
        return LoginStep.CompareFailed;
      }
      if !isValid.value {
        return LoginStep.InvalidCredentials;
      }
      users := SetLastLogin(users, user.id, now);
      var token := Issue(crypto, user.id, user.email, user.role, now);
      return LoginStep.LoggedIn(user, token);
    }
  }
}
