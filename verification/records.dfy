/** The two tables the edge functions act on, `otp_requests` and `users`,
    with the row shapes of the generated database types, and the lookup the
    handlers run against `users`. Timestamps are integer milliseconds. */
module Records {
  import opened Base

  /** The `app_role` enumeration. */
  datatype Role = SystemAdmin | Admin | Manager | User

  /** A row of `otp_requests`; the generated `id` key is not used by any handler. */
  datatype OtpRequest = OtpRequest(
    email: string,
    name: string,
    passwordHash: string,
    otpHash: string,
    attemptsLeft: int,
    expiresAt: int,
    resendAfter: int,
    createdAt: int)

  /** A row of `users`; `passwordHash` is null for accounts that sign in
      through an external identity provider. */
  datatype Account = Account(
    id: string,
    email: string,
    name: string,
    passwordHash: Option<string>,
    role: Role,
    status: string,
    isDeleted: bool,
    lastLoginAt: Option<int>,
    createdAt: int,
    updatedAt: int)

  /** Every handler reads `otp_requests` by email, so the table is a map keyed
      by email; `users` is a list of rows. */
  datatype Tables = Tables(otpRequests: map<string, OtpRequest>, users: seq<Account>)

  /** What a handler leaves behind: the new tables and its response. */
  datatype Step<+O> = Step(tables: Tables, outcome: O)

  const MaxAttempts: int := 5

  /** The invariant of a pending request: it sits under its own email, its
      attempt budget lies in [0, 5] and it expires after it was created. */
  ghost predicate RequestValid(email: string, r: OtpRequest) {
    r.email == email && 0 <= r.attemptsLeft <= MaxAttempts && r.createdAt < r.expiresAt
  }

  ghost predicate TablesValid(t: Tables) {
    forall e :: e in t.otpRequests ==> RequestValid(e, t.otpRequests[e])
  }

  /** `select ... from users where email = $1 and is_deleted = false`. */
  function LiveRows(users: seq<Account>, email: string): (r: seq<Account>)
    ensures forall a :: a in r <==> a in users && a.email == email && !a.isDeleted
  {
    if users == [] then []
    else
      var rest := LiveRows(users[1..], email);
      assert forall a :: a in users <==> a == users[0] || a in users[1..];
      if users[0].email == email && !users[0].isDeleted then [users[0]] + rest else rest
  }

  /** The query keeps each live row with that email as often as the table
      holds it and drops every other row, so its length counts the live
      rows for the email. */
  lemma {:induction false} LiveRowsCount(users: seq<Account>, email: string)
    ensures forall a ::
      multiset(LiveRows(users, email))[a] == (if a.email == email && !a.isDeleted then multiset(users)[a] else 0)
  {
    if users != [] {
      LiveRowsCount(users[1..], email);
      assert users == [users[0]] + users[1..];
      assert multiset(users) == multiset([users[0]]) + multiset(users[1..]);
    }
  }

  /** `.maybeSingle()` on that query: the row when there is exactly one;
      no row gives null data and several rows give an error and null data. */
  function LiveUser(users: seq<Account>, email: string): (r: Option<Account>)
    ensures r.Some? ==> r.value in users && r.value.email == email && !r.value.isDeleted
    ensures r.Some? <==> |LiveRows(users, email)| == 1
    ensures r.Some? ==> r.value == LiveRows(users, email)[0]
  {
    var rows := LiveRows(users, email);
    if |rows| == 1 then Some(rows[0]) else None
  }

  /** `update users set last_login_at = now where id = $1`: every row with that
      id gets the new time, and nothing else changes. */
  function SetLastLogin(users: seq<Account>, id: string, now: int): (r: seq<Account>)
    ensures |r| == |users|
    ensures forall i :: 0 <= i < |r| ==>
      r[i] == if users[i].id == id then users[i].(lastLoginAt := Some(now)) else users[i]
  {
    if users == [] then []
    else
      var head := if users[0].id == id then users[0].(lastLoginAt := Some(now)) else users[0];
      [head] + SetLastLogin(users[1..], id, now)
  }

  /** Appending a row adds it to the lookup's rows exactly when it is live
      and has the email. */
  lemma {:induction false} LiveRowsAppend(users: seq<Account>, a: Account, email: string)
    ensures LiveRows(users + [a], email)
      == LiveRows(users, email) + (if a.email == email && !a.isDeleted then [a] else [])
  {
    if users != [] {
      assert (users + [a])[1..] == users[1..] + [a];
      LiveRowsAppend(users[1..], a, email);
    }
  }
}
