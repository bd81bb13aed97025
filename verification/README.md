# OTP signup and login for the Slate AI backend

The backend handles signup and login through four Supabase edge functions.
They share two tables: `otp_requests`, with one pending signup per email,
and `users`.

- `send-otp` checks the signup form (name, email, a password of at least
  8 characters). It refuses an email that already has an active account.
  Otherwise it draws a 6-digit code and hashes both the code and the
  password as `saltHex:hashHex`, using PBKDF2-HMAC-SHA256 (section 5.2 of
  RFC 8018) with a random 16-byte salt. It then deletes any pending
  request for the email and inserts a fresh one: 5 attempts, expiry in
  10 minutes, resend cooldown of 60 seconds. Finally it mails the code.
- `resend-otp` drops an expired request. During the cooldown it answers
  429 with the seconds left, rounded up. Otherwise it replaces the code,
  restores the 5 attempts and restarts the cooldown. The expiry stays as
  it was, and the new code is hashed with **bcrypt**.
- `verify-otp` reports, in this order:
  - a missing request,
  - an expired request (and deletes it),
  - a locked request (no attempts left).
  After those checks it compares the code with the stored PBKDF2 hash. A
  wrong code costs one attempt. The right code creates an active `User`
  account carrying the signup's password hash, deletes the pending
  request, and returns an HS256 session token. Per section 4.1.4 of
  RFC 7519, the token's `exp` is seven days ahead in whole seconds.
- `login` looks up the single live account for the email. It checks that
  the account is active and has a password hash. It then compares the
  password with **bcrypt**. On success it stamps `last_login_at` and
  issues a session token.

The model keeps the source's behaviour, including two mismatches between
the hash schemes:

- A code issued by `resend-otp` is a bcrypt text. `verify-otp` only reads
  `salt:hex` texts, so after a resend no code verifies until a new signup
  replaces the request (`Scenarios.ResentCodeRejected`).
- `login` hands the PBKDF2 text stored at signup to bcrypt's compare. So
  logging in after signup succeeds exactly when that library call accepts
  a text it did not produce (`Scenarios.LoginAfterSignup`).

The hash functions are supplied as function values with nothing assumed
between them: PBKDF2, bcrypt's hash and compare, and the HS256 signature.

## Layout

- `base.dfy`: optional JSON fields, bytes, digits, JavaScript truthiness
  and UTF-16 length.
- `hex.dfy`: the `padStart` hex encoding, plus the `match(/.{2}/g)` and
  `parseInt(_, 16)` reading that inverts it.
- `records.dfy`: rows of both tables, the `maybeSingle` lookup of a live
  account, and the `last_login_at` update.
- `primitives.dfy`: the cryptographic functions the handlers call.
- `credentials.dfy`: `hashPassword` and `verifyPassword`.
- `otp_code.dfy`: `generateOTP`.
- `session_token.dfy`: `generateJWT`.
- `send_otp.dfy`, `resend_otp.dfy`, `verify_otp.dfy`, `login.dfy`: each
  handler as one step from tables to tables plus a response. Each has its
  outcomes and their conditions.
- `backend.dfy`: the tables as an object. Each handler is a method that
  updates the object step by step in the order of its source. Each method
  is proved to produce exactly the step its handler function describes.
- `scenarios.dfy`: properties of request sequences.

## Model

| member | source | states |
|---|---|---|
| Base.Utf16Length | supabase/functions/send-otp/index.ts:127 | `password.length` counts UTF-16 code units: between one and two per character |
| OtpCode.Code | supabase/functions/send-otp/index.ts:68-74 | the code has one character per draw, each a decimal digit whose value is that draw |
| OtpCode.DigitChar | supabase/functions/send-otp/index.ts:71 | a draw's `toString()` is one decimal digit whose value is the draw |
| OtpCode.Generate | supabase/functions/send-otp/index.ts:68-74 | the append loop returns exactly `length` decimal digits, the i-th being the i-th draw, equal to `Code(draws)`; `resend-otp` lines 62-68 are the same function |
| Hex.HexDigit | supabase/functions/send-otp/index.ts:101 | a nibble is written as a lower-case hex digit |
| Hex.ToRadix16 | supabase/functions/send-otp/index.ts:101 | `toString(16)` of a number is at least one lower-case hex digit, with a leading `0` exactly for zero |
| Hex.PadStart | supabase/functions/send-otp/index.ts:101 | the padded string has the requested width, ends with the input and is filled with the pad character before it |
| Hex.ByteToHex | supabase/functions/send-otp/index.ts:101 | a byte is written as exactly two lower-case hex digits |
| Hex.PaddedRadix16 | supabase/functions/send-otp/index.ts:101 | `b.toString(16).padStart(2, '0')` equals the two-digit form for every byte |
| Hex.EncodeHex | supabase/functions/send-otp/index.ts:101-102 | the encoding is twice as long as the bytes and all lower-case hex |
| Hex.MatchPairs | supabase/functions/verify-otp/index.ts:17 | each match of `/.{2}/g` has two characters, neither a line terminator |
| Hex.DigitRun | supabase/functions/verify-otp/index.ts:17 | the digit run `parseInt` reads is maximal: all its characters are radix-16 digits and the next character, if any, is not |
| Hex.LeadingValue | supabase/functions/verify-otp/index.ts:17 | there is no number exactly when the text is empty or its first character is not a radix-16 digit (either case) |
| Hex.ParseInt16 | supabase/functions/verify-otp/index.ts:17 | `parseInt(_, 16)` of blank text is NaN, and a negative result needs a leading `-` after the white space |
| Hex.ToUint8 | supabase/functions/verify-otp/index.ts:17 | storing into a `Uint8Array` keeps a number modulo 256, so a value that is already a byte is kept as it is |
| Hex.ParsePairs | supabase/functions/verify-otp/index.ts:17 | one byte per matched pair |
| Hex.ParseHex | supabase/functions/verify-otp/index.ts:17 | the salt parse throws exactly when the match finds no pair; otherwise one byte per pair |
| Hex.ParseByteHex | supabase/functions/verify-otp/index.ts:17 | `parseInt(pair, 16)` reads back the byte the encoder wrote |
| Hex.ParseOfEncoding | supabase/functions/verify-otp/index.ts:17 | parsing the pairs of an encoding gives back the encoded bytes |
| Hex.HexRoundTrip | supabase/functions/verify-otp/index.ts:17 | the salt parse inverts the signup's hex encoding of any non-empty byte string |
| Hex.EncodeHexInjective | supabase/functions/verify-otp/index.ts:42-44 | equal hex texts come from equal digests, so comparing hex compares digests |
| Credentials.HashPassword | supabase/functions/send-otp/index.ts:76-105 | the stored text is 97 characters: 16 salt bytes and 32 digest bytes in hex around a colon |
| Credentials.HashPasswordLayout | supabase/functions/send-otp/index.ts:100-104 | the colon sits at index 32, every other character is lower-case hex, and the first 32 read back as the salt |
| Credentials.Split | supabase/functions/verify-otp/index.ts:16 | `split(':')` always yields at least one piece, so `saltHex` is always defined |
| Credentials.SplitJoin | supabase/functions/verify-otp/index.ts:16 | the pieces of `split(':')` contain no colon and join back to the text |
| Credentials.SplitAtFirst | supabase/functions/verify-otp/index.ts:16 | splitting a colon-free text, a colon and a rest gives the text followed by the rest's pieces |
| Credentials.SplitWithout | supabase/functions/verify-otp/index.ts:16 | a text without a colon splits into itself alone |
| Credentials.VerifyPassword | supabase/functions/verify-otp/index.ts:15-45 | acceptance needs a second piece after the colon, since a missing `hashHex` never equals a digest text; the cases and round trip are the next lemmas |
| Credentials.VerifyPasswordCases | supabase/functions/verify-otp/index.ts:15-45 | `verifyPassword` throws exactly when the text before the first colon holds no pair, and accepts only texts containing a colon |
| Credentials.VerifyAgainstHash | supabase/functions/verify-otp/index.ts:15-45 | against a `hashPassword` text, a candidate is accepted exactly when PBKDF2 gives it the same digest under the stored salt |
| Credentials.HashThenVerify | supabase/functions/verify-otp/index.ts:15-45 | a secret always verifies against its own hash |
| Credentials.BcryptNeverVerifies | supabase/functions/resend-otp/index.ts:70-72 | `verifyPassword` never accepts any candidate against a bcrypt text |
| Records.LiveRows | supabase/functions/login/index.ts:57-61 | the query returns exactly the rows with that email that are not soft-deleted |
| Records.LiveRowsCount | supabase/functions/login/index.ts:57-61 | the query holds each live row with that email as often as the table does and no other row, so its length, which `maybeSingle` tests, counts the live rows for the email |
| Records.LiveUser | supabase/functions/login/index.ts:57-62 | `maybeSingle` returns a row exactly when the query returns exactly one live row with that email, and then it is that row; no row and several rows both give nothing |
| Records.LiveRowsAppend | supabase/functions/verify-otp/index.ts:142-153 | inserting an account adds it to the lookup's rows exactly when it is live and has the email |
| Records.SetLastLogin | supabase/functions/login/index.ts:97-101 | rows with that id get `last_login_at := now`; every other row and field is unchanged |
| SessionToken.Expiry | supabase/functions/verify-otp/index.ts:61 | `exp` is the issue time plus 604800 seconds, rounded down to a whole second |
| SessionToken.Issue | supabase/functions/verify-otp/index.ts:47-65 | the token's claims bind the given id, email and role, and its HS256 signature is accepted at issue time |
| SessionToken.IssuedTokenLifetime | supabase/functions/login/index.ts:26-33 | the token is accepted for the first seven days less one second and rejected from seven days on |
| SendOtp.Status | supabase/functions/send-otp/index.ts:120-205 | 200 only on success; 500 for a failed insert or mail; 400 for the three refusals |
| SendOtp.Handle | supabase/functions/send-otp/index.ts:117-198 | an outcome for each of: missing field, short password, active account, insert failure, dispatch failure, success; validation refusals leave both tables unchanged; `users` is never changed; a failed insert still deletes the old request |
| SendOtp.AdmittedIssues | supabase/functions/send-otp/index.ts:149-187 | after the insert, exactly one request exists for the email and all others are as before; it has 5 attempts, expiry now+600000 and cooldown now+60000; both hashes are `hashPassword` texts, not the plain code, and verify the mailed 6-digit code and the password |
| ResendOtp.Status | supabase/functions/resend-otp/index.ts:86-168 | 200 only on success, 429 only when rate limited, 500 only when the mail fails, 400 exactly for a missing email, no request or an expired one |
| ResendOtp.RetryAfterSeconds | supabase/functions/resend-otp/index.ts:121 | `retry_after` is at least 1, and is the wait in milliseconds divided by 1000, rounded up |
| ResendOtp.Renewed | supabase/functions/resend-otp/index.ts:139-147 | the row gets the new hash, 5 attempts and cooldown now+60000; name, email, password hash, expiry and creation time are kept |
| ResendOtp.Handle | supabase/functions/resend-otp/index.ts:84-161 | outcomes in source order: missing email, no request, expired (row deleted; at `now == expires_at` not expired), rate limited (nothing changes, wait rounded up), renewed with a bcrypt hash of a fresh 6-digit code; `users` is never changed |
| VerifyOtp.ErrorCode | supabase/functions/verify-otp/index.ts:94-138 | `OTP_EXPIRED` for a missing or expired request, `OTP_LOCKED` for a locked one, `INVALID_OTP` for a wrong code |
| VerifyOtp.Status | supabase/functions/verify-otp/index.ts:80-188 | 200 only on success; 500 for an unreadable hash or a failed account insert; 400 exactly for a missing field, no request, an expired or locked one, or a wrong code |
| VerifyOtp.NewAccount | supabase/functions/verify-otp/index.ts:142-153 | the account copies name, email and password hash from the request, with role `User`, status `active` and not deleted; it carries the given id, and `last_login_at` (and the defaulted `created_at`) is the request's time |
| VerifyOtp.Handle | supabase/functions/verify-otp/index.ts:77-164 | outcomes in source order: missing field, no request, expired (deleted, even when locked), locked (row kept), unreadable hash, wrong code (exactly one attempt less, reported), insert failure (nothing changes), success (row deleted, account appended, token for it) |
| VerifyOtp.HandleShrinks | supabase/functions/verify-otp/index.ts:102-161 | verification never adds a request or raises an attempt budget, and keeps budgets in [0, 5] |
| Login.Message | supabase/functions/login/index.ts:49-95 | an unknown email and a wrong password get the same "Invalid email or password" text, and no other outcome does |
| Login.Status | supabase/functions/login/index.ts:49-128 | 200 only on success, 500 only when the compare throws, 400 exactly for a missing field, bad credentials, an inactive account or an SSO-only account |
| Login.Handle | supabase/functions/login/index.ts:46-121 | each outcome exactly when its condition holds, in source order: missing field, no single live account, not active, no password hash, then the bcrypt compare (success when it accepts, bad credentials when it rejects, a 500 when it throws); only success changes `users`, through the `last_login_at` update for that id, and returns a token for that account; `otp_requests` is never changed |
| Backend.AuthBackend.SendOtp | supabase/functions/send-otp/index.ts:117-198 | the delete-then-insert method leaves the tables and response of `SendOtp.Handle` and keeps the table invariant |
| Backend.AuthBackend.ResendOtp | supabase/functions/resend-otp/index.ts:84-161 | the delete or in-place update leaves the tables and response of `ResendOtp.Handle` and keeps the invariant |
| Backend.AuthBackend.VerifyOtp | supabase/functions/verify-otp/index.ts:77-181 | the lookup and the delete of an expired request leave the tables and response of `VerifyOtp.Handle` and keep the invariant |
| Backend.AuthBackend.CheckCode | supabase/functions/verify-otp/index.ts:121-164 | for an open request, the compare, the decrement or the insert and delete leave the tables and response of `VerifyOtp.Handle` and keep the invariant |
| Backend.AuthBackend.Login | supabase/functions/login/index.ts:46-121 | the `last_login_at` update leaves the tables and response of `Login.Handle`; `otp_requests` is untouched |
| Scenarios.RunKeepsValid | supabase/functions/verify-otp/index.ts:112-138 | over any sequence of requests, every pending request keeps its email key, an attempt budget in [0, 5] and expiry after creation |
| Scenarios.SignupThenVerify | supabase/functions/verify-otp/index.ts:142-164 | the mailed code entered within ten minutes creates an active `User` with the signup's name, email and password hash; the request is removed and the token names the account |
| Scenarios.LoginAfterSignup | supabase/functions/login/index.ts:88 | for a new email, login after signup succeeds exactly when bcrypt's compare accepts the password against the stored PBKDF2 text |
| Scenarios.SignupExpires | supabase/functions/verify-otp/index.ts:102-110 | any code entered more than ten minutes after signup gets `OTP_EXPIRED` and deletes the request |
| Scenarios.ResendTooSoon | supabase/functions/resend-otp/index.ts:118-129 | a resend within the first minute after signup is refused with a wait of 1 to 60 seconds and changes nothing |
| Scenarios.ResentCodeRejected | supabase/functions/resend-otp/index.ts:133-147 | after a resend, verifying any code for that email fails and creates no account |
| Scenarios.WrongGuesses | supabase/functions/verify-otp/index.ts:121-138 | k wrong guesses before expiry, with at least k attempts left, lower the budget by exactly k and change nothing else |
| Scenarios.Spend | supabase/functions/verify-otp/index.ts:124-128 | spending attempts lowers that request's budget by the amount spent; its other fields, every other request and `users` are kept |
| Scenarios.LockedAfterBudget | supabase/functions/verify-otp/index.ts:113-118 | once wrong guesses use up the budget, any code gets `OTP_LOCKED` and the row is kept |
| Scenarios.FiveWrongGuessesLock | supabase/functions/send-otp/index.ts:156 | five wrong guesses after signup lock the request, and even the right code is then refused |

## Left out

- Transport is not modelled: `serve`, CORS headers, the `OPTIONS` reply, JSON parsing and the response bodies beyond status, error code and message. The `Deno.env` configuration is also left out.
- `sendEmail` is not modelled: the smtp2go request and its HTML. Dispatch is the `Mail` value, and its failure is an input.
- Supabase calls are an in-memory step. Each request is one atomic step. The read-then-write race on `attempts_left` and the lack of transactions between the delete and the insert are not modelled.
- `otp_requests` is a map keyed by email. Several rows for one email, which only a race could create, cannot be expressed.
- Errors from the deletes and updates are not modelled; the source does not inspect them either.
- A failing lookup is not an input. In the source it gets the same answer as "no row".
- Database constraints that could make an insert fail are an input (`insertFails`).
- The database assigns the new account's id (an input). It also sets `created_at` by default in both tables, for the new account and for the new `otp_requests` row; the model takes it as the request's time, and the `created_at` before `expires_at` part of the table invariant rests on that.
- `Math.random` is not modelled: the six digits are inputs. The salts of `crypto.getRandomValues` and of `bcrypt.hash` are also inputs.
- `Date` and ISO strings become integer milliseconds. One clock value serves a whole request, including the token's `Date.now()`.
- PBKDF2 (with the UTF-8 encoding of the secret), bcrypt and the HS256 signature are supplied functions. Their internals and the base64url token text are not modelled.
- Text is Unicode scalar values. A character outside the Basic Multilingual Plane counts twice for the length check, but for the `/.{2}/g` match it is treated as one character rather than two UTF-16 halves.
- Request fields are strings, as the `SendOTPRequest`, `VerifyOTPRequest` and `LoginRequest` interfaces declare. The source does not check this at run time. A truthy non-string value passes the `!field` check; for example `"password": 1234` has no `length`, so it skips the 8-character check, and it is then hashed as its string form. Such bodies are not modelled.
- `parseInt` is exact on unbounded integers. Values beyond 2^53 would lose precision in JavaScript; the salt pairs never reach them.
- The audit log, the `chain_head` table and every page and layout of the web client are not part of this model. The client's verify and resend handlers are unfinished stubs.
