# auth-2fa core in Dafny

This project models the core of auth-2fa, a Rust (actix-web) service that adds
two-factor authentication (TOTP) to registration and login. Users register and
log in by e-mail. They then generate an OTP secret together with its
`otpauth://` provisioning URI, verify a first code to enable 2FA, validate
codes at later logins, and can disable 2FA again. The model covers:

- **`OtpHandlers`**: the four OTP handlers of the library revision
  (`src/otp_handlers.rs`). Each is a pure function of the user lookup the
  repository offers. It returns the response and the handler's updated
  local copy of the user, which the handler never writes back.
- **`Base32`**: a concrete RFC 4648 section 6 base32 encoder and decoder
  without padding. It holds the generated secrets.
- **`Totp`**: the time-step window of `check_current` (SHA-1, 6 digits,
  skew 1, 30 s step; RFC 6238). It also holds the provisioning URI.
- **`MongoUser`**: the Mongo repository (`src/db/mongo/user.rs`). A
  `UserRepo` class holds the collection as a sequence of documents.
- **`Postgres`**: the Postgres repository (`src/db/sql/postgres.rs`). A
  `PostgresRepo` class holds the `auth_users` table as a sequence of rows.
- **`Service`**: the register and login endpoint bodies (`src/service.rs`),
  which map repository results to HTTP responses.
- **`Response`**: `GenericResponse::ok`/`error`, the `UserData` projection
  and the response bodies (`src/response.rs`).
- **`ExampleService`** and **`ExampleOtpHandlers`**: the in-memory example
  revision (`example/src/`). Its `AppState` holds a vector of users. Register
  scans the vector and pushes. Login searches it. Disable resets one entry in
  place.
- **`Models`**, **`Text`**, **`Seqs`** and **`Wrappers`**: record shapes,
  ASCII lower-casing, first-match search, and `Option`/`Result`.

Nondeterministic and foreign inputs are parameters:
- the random secret bytes;
- the UUID or row id;
- the clock readings (`Utc::now()` is read once by the Mongo and example
  registrations, twice by Postgres);
- whether a database query, cursor step or insert fails;
- the HOTP code generator `hotp(key, counter)`, i.e. HMAC-SHA1 with the
  truncation of section 5.3 of RFC 4226.

Each `unwrap` on a value the model sees becomes a `requires` clause:
- the `Option` fields that `UserData::from` and `user_to_response` unwrap
  (`Response.Projectable`, `ExampleService.Respondable`);
- the stored secret that `to_bytes()` must decode and `TOTP::new` must accept
  as at least 128 bits (`OtpHandlers.UsableSecret`).

Two `unwrap`s are on values outside the model and are listed under
"## Left out": `deserialize_current()` in the Mongo search, and the
`SystemTime` error of `check_current`.

Behaviours of the code worth knowing, each proved in the model:
- **Secret length.** A generated secret is 34 base32 characters: 21 bytes
  are 168 bits, and 168/5 rounds up to 34 (`Base32.SecretLength`).
- **Validate.** It refuses with "2FA not enabled" only when `otp_enabled` is
  explicitly `Some(false)`. An unset flag goes on to the token check.
- **No write-back.** None of the library's OTP handlers writes its updated
  record back, so the stored record never changes. The enrolment cycle holds
  only for the copies (`OtpHandlers.WrittenBackLifecycle`).
- **`updatedAt`.** No handler refreshes it.
- **Postgres registration.** It stores the e-mail as sent, but login searches
  for the lower-cased address. It leaves the OTP flags unset, so
  `UserData::from` would panic on a freshly registered row.

## Model

| member | source | states |
|---|---|---|
| Text.ToLower | src/service.rs:67 | `to_lowercase` (ASCII letters only): same length, result has no upper-case letter, each character lowered pointwise |
| Text.ToLowerIdempotent | src/service.rs:67 | lowering twice is lowering once |
| Text.ToLowerIgnoresCase | example/src/service.rs:32 | addresses that lower to the same text are the same to every lower-casing comparison |
| Text.ToLowerOfLower | src/db/mongo/user.rs:66 | a lower-case address is left unchanged |
| Seqs.FirstWhere | example/src/service.rs:70-72 | index of the first element satisfying the predicate; `None` exactly when no element does |
| Seqs.FindWhere | src/db/sql/postgres.rs:46 | the first element satisfying the predicate (`get(0)` of the filtered rows): no element before it matches; `None` exactly when none does |
| Seqs.FirstWhereAppend | example/src/service.rs:57 | appending an element does not change an existing first match, and the appended element becomes the first match when there was none |
| Seqs.FirstWhereIs | example/src/otp_handlers.rs:11 | a matching index with no match before it is the first match |
| Models.NewUserDocument | example/src/service.rs:41-55 | the registered user: fresh id, lower-cased e-mail, name and password copied, both flags `Some(false)`, no secret or URI, `createdAt == updatedAt` |
| Response.OkResponse | src/response.rs:12-17 | status "success" and the given message |
| Response.ErrorResponse | src/response.rs:19-24 | status "error" and the given message |
| Response.Projectable | src/response.rs:51-54 | the four `Option` fields `UserData::from` unwraps are present |
| Response.UserDataFrom | src/response.rs:43-56 | copies id, name, e-mail, secret, URI and timestamps; unwraps both flags and both timestamps (a `requires`); has no password |
| Response.UserDataFromForgetsOnlyPassword | src/response.rs:29-41 | two users have the same projection exactly when they differ at most in the password |
| Response.UserNotFound | src/otp_handlers.rs:26-31 | 404 with status "fail" and "No user with Id: {id} found" |
| Base32.ValueOfBitsOf | src/otp_handlers.rs:145 | the k-bit big-endian digits of a number below 2^k read back as that number |
| Base32.BitsOfValueOf | src/otp_handlers.rs:152 | a bit group read as a number and written back gives the same group |
| Base32.SymbolValueOfSymbol | src/otp_handlers.rs:145 | the RFC 4648 alphabet is a bijection on 0..31 |
| Base32.Encode | src/otp_handlers.rs:145 | unpadded encoding: ceil(8n/5) characters, all from A–Z2–7 |
| Base32.Decode | src/otp_handlers.rs:152 | `Some` exactly for alphabet-only text; floor(5n/8) bytes; trailing partial bits dropped |
| Base32.BitsToBytesToBits | src/otp_handlers.rs:152 | regrouping the bits of bytes into bytes gives the bytes back |
| Base32.SymbolsToBitsToSymbols | src/otp_handlers.rs:152 | regrouping 5-bit groups into symbols and back gives the groups back |
| Base32.DecodeEncode | src/otp_handlers.rs:145-152 | decoding an encoded secret gives back the random bytes, so `to_bytes().unwrap()` cannot panic |
| Base32.EncodeDecodeEncode | src/otp_handlers.rs:152-156 | `get_secret_base32` of the TOTP built from the secret is the secret itself |
| Base32.GroupBitsToSymbols | src/otp_handlers.rs:145 | cutting the bits of 5-bit values into symbols spells each value's symbol |
| Base32.EncodeBlocks | src/otp_handlers.rs:145 | whole 5-byte blocks encode independently: `Encode(a + b) == Encode(a) + Encode(b)` when `a` has a multiple of 5 bytes |
| Base32.Rfc4648Vector | src/otp_handlers.rs:145 | the first test vector of section 10 of RFC 4648: "f" encodes to "MY" |
| Base32.SecretLength | src/otp_handlers.rs:144-145 | 21 random bytes give 34 characters |
| Totp.Counter | src/otp_handlers.rs:61 | the 30-second step containing the instant: `c * 30 <= now < (c + 1) * 30` |
| Totp.CheckCurrent | src/otp_handlers.rs:57-66 | accepts exactly the codes of the previous, current and next step (skew 1) |
| Totp.CurrentCodeAccepted | src/otp_handlers.rs:57-66 | the code of the current 30-second step is accepted |
| Totp.CodeAcceptedWithinBand | src/otp_handlers.rs:60-61 | a code issued at t is accepted at every later instant up to the end of the next step (skew 1) |
| Totp.CodeAcceptedAfter29Seconds | src/otp_handlers.rs:60-61 | a code is still accepted 29 seconds after it was issued |
| Totp.CodeRefusedAfter61Seconds | src/otp_handlers.rs:60-61 | 61 seconds later the issuing step has left the window; the code is refused unless it equals a code of the next steps |
| Totp.MalformedTokenRefused | src/otp_handlers.rs:59 | with 6-digit codes, a token that is not six digits is never accepted |
| Totp.OtpAuthUrl | src/otp_handlers.rs:159 | the provisioning URI, of exactly the length of its unescaped parts |
| Totp.UrlSplitsAtQuery | src/otp_handlers.rs:157-159 | without `?` in issuer or e-mail, the URI splits at its first `?` into label and exactly `secret=…&issuer=…` |
| Totp.UnescapedEmailMovesQuery | src/otp_handlers.rs:157-159 | an e-mail containing `?` moves the start of the query into the account label (nothing is escaped) |
| OtpHandlers.UsableSecret | src/otp_handlers.rs:57-64 | the stored secret is base32 and decodes to at least 16 bytes, as `to_bytes().unwrap()` and `TOTP::new(..).unwrap()` demand |
| OtpHandlers.Accepts | src/otp_handlers.rs:57-66 | the TOTP built from the decoded secret accepts exactly the codes of the previous, current and next step |
| OtpHandlers.ResetOtp | src/otp_handlers.rs:19-22 | the reset of disable: both flags false, no secret or URI, every other field kept |
| OtpHandlers.ResetOtpIdempotent | src/otp_handlers.rs:19-22 | resetting twice equals resetting once |
| OtpHandlers.MarkVerified | src/otp_handlers.rs:119-120 | both flags `Some(true)`, secret, URI and account fields kept |
| OtpHandlers.WithSecret | src/otp_handlers.rs:161-162 | secret and URI set together, flags and account fields kept |
| OtpHandlers.DisableOtpHandlerInner | src/otp_handlers.rs:9-33 | unknown id: 404 and no user; else the reset user (flags false, no secret or URI, account unchanged) and 200 with `UserData::from` of it and `otp_disabled: true` |
| OtpHandlers.ValidateOtpHandlerInner | src/otp_handlers.rs:35-85 | unknown id: 404; 403 "2FA not enabled" iff `otp_enabled == Some(false)`; 500 "OTP base32 is missing" iff not disabled and no secret; 200 `otp_valid: true` iff not disabled, secret present and token accepted; 403 "Token is invalid or user doesn't exist" when the token is refused; the secret must be usable |
| OtpHandlers.VerifyOtpHandlerInner | src/otp_handlers.rs:87-131 | unknown id: 404; 200 iff the token is accepted, then both flags true, secret kept and the projected user returned; otherwise 403 with the user untouched; the secret must be present and usable (`unwrap`) |
| OtpHandlers.GenerateOtpHandlerInner | src/otp_handlers.rs:133-172 | unknown id: 404; else 200 with the secret `Encode(randomBytes)`: 34 base32 characters that decode to the random bytes, the URI built from the issuer "PSAR" and the request's e-mail, both stored on the copy, flags untouched |
| OtpHandlers.WrittenBackLifecycle | src/otp_handlers.rs:133-172 | had the copies been written back: generate, then verify with the current code, enables 2FA; disable then resets it |
| OtpHandlers.ValidateAfterDisableRefused | src/otp_handlers.rs:45-54 | validate of a user who has been reset answers "2FA not enabled" whatever the token |
| MongoUser.FieldValue | src/db/mongo/user.rs:35-37 | the value a document holds under a key: its e-mail under "email", its id under "id", none under an unknown key |
| MongoUser.Find | src/db/mongo/user.rs:25-51 | `None` on a failed query or cursor step (and, by assumption, no match); else the first matching document |
| MongoUser.UserIdFieldFindsNothing | src/db/mongo/user.rs:35-37 | a query on the key "user_id" finds no document, since `User` has no such field |
| MongoUser.Register | src/db/mongo/user.rs:53-86 | `Err` iff the raw-address check found a document or the insert failed, collection then unchanged; else exactly one new document appended and "registered new user with email: " + lower-cased address |
| MongoUser.LowercaseRequestKeepsEmailsUnique | src/db/mongo/user.rs:60-79 | with a lower-case request and a check that ran, stored addresses stay lower case and distinct |
| MongoUser.MixedCaseRegistersTwice | src/db/mongo/user.rs:60-66 | "a@x" then "A@x" both register, leaving two documents with the same address |
| MongoUser.FailedCheckAdmitsDuplicate | src/db/mongo/user.rs:39-49 | a failed duplicate check lets an address already stored be inserted again |
| MongoUser.UserRepo.Init | src/db/mongo/user.rs:21-23 | the repository starts with the given collection |
| MongoUser.UserRepo.FindUserByCustomField | src/db/mongo/user.rs:25-51 | over the stored collection: `None` iff the query or cursor fails or no document matches the field; else the first matching document |
| MongoUser.UserRepo.RegisterUserByEmail | src/db/mongo/user.rs:53-86 | the new collection and the result are exactly those of `Register` on the old collection |
| Postgres.FindByEmail | src/db/sql/postgres.rs:38-50 | `None` on a failed query or when no row has exactly this address; else the first such row |
| Postgres.FindById | src/db/sql/postgres.rs:52-64 | the same on the id column |
| Postgres.NewRow | src/db/sql/postgres.rs:71-81 | the request's address, name and password as sent, all four OTP fields unset, two clock readings |
| Postgres.Inserted | src/db/sql/postgres.rs:83-87 | the stored row keeps every inserted value under the assigned id |
| Postgres.Register | src/db/sql/postgres.rs:66-94 | `Err` iff a row had exactly this address or the insert failed, table then unchanged; else one row appended and "registered new user with email: " + the address as sent |
| Postgres.RegisterKeepsEmailsDistinct | src/db/sql/postgres.rs:69-93 | with one writer and a check that ran, registration keeps addresses distinct |
| Postgres.RegisteredRowNotProjectable | src/db/sql/postgres.rs:75-76 | a freshly registered row fails `UserData::from`'s preconditions |
| Postgres.PostgresRepo.Init | src/db/sql/postgres.rs:28-36 | the repository starts with the given table |
| Postgres.PostgresRepo.FindUserByEmail | src/db/sql/postgres.rs:38-50 | over the stored table: `None` iff the query fails or no row has exactly this address; else the first such row |
| Postgres.PostgresRepo.FindUserById | src/db/sql/postgres.rs:52-64 | over the stored table: `None` iff the query fails or no row has this id; else the first such row |
| Postgres.PostgresRepo.RegisterUserByEmail | src/db/sql/postgres.rs:66-94 | the new table and the result are exactly those of `Register` on the old table |
| Service.RegisterInner | src/service.rs:34-48 | 200 "user registered" iff the repository returned `Ok`; any error is 400 "user with email {raw address} already exists" |
| Service.LoginInner | src/service.rs:62-82 | searches for the lower-cased address; 400 "Invalid email or password" iff nothing is found, else "success" with the projected user |
| Service.LoginIgnoresPassword | src/service.rs:62-82 | the request's password does not change the answer |
| Service.PostgresMixedCaseLoginRefused | src/service.rs:67 | on Postgres, a user registered with an address not in lower case is refused at login with that same address and any password |
| Service.PostgresLoginOfNewUserNotProjectable | src/service.rs:74-78 | on Postgres, a user registered with a lower-case address is found at login but violates `UserData::from`'s preconditions |
| Service.MongoCaseVariantConflict | src/service.rs:40-46 | on Mongo, registering an address and then its lower-cased form: the first answers 200, the second 400, and one document is stored |
| Service.PostgresCaseVariantStoredTwice | src/service.rs:40-46 | on Postgres, the same two registrations (address not in lower case) both answer 200 and store two rows differing only in case |
| ExampleService.AppState.constructor | example/src/service.rs:29 | the shared state holds the given users as its vector `db` |
| ExampleService.Respondable | example/src/service.rs:123-131 | the five `Option` fields `user_to_response` unwraps are present |
| ExampleService.UserToResponse | example/src/service.rs:121-133 | copies id, name, e-mail, secret, URI, flags and timestamps; requires id, flags and timestamps present |
| ExampleService.FindByEmail | example/src/service.rs:70-72 | the first user with exactly this address, or `None` exactly when there is none |
| ExampleService.Register | example/src/service.rs:24-61 | 409 naming the address and vector unchanged when a user has the lower-cased address; else 200 and exactly the new user appended |
| ExampleService.RegisterKeepsEmailsUnique | example/src/service.rs:31-57 | stored addresses stay lower case and pairwise distinct, and every user stays showable |
| ExampleService.CaseVariantConflicts | example/src/service.rs:31-39 | two requests whose addresses differ only in case cannot both register |
| ExampleService.RegisterUserHandler | example/src/service.rs:24-61 | the loop over the locked vector and the push leave the vector and response exactly as `Register` says |
| ExampleService.LoginUserHandler | example/src/service.rs:63-87 | 400 "Invalid email or password" iff no user has the lower-cased address; else 200 with the first such user shown |
| ExampleService.LoginIgnoresPassword | example/src/service.rs:63-87 | the request's password does not change the answer |
| ExampleService.RegisterThenLogin | example/src/service.rs:57-72 | after a successful register, login with the address in any case shows the new user |
| ExampleOtpHandlers.IndexOfId | example/src/otp_handlers.rs:11 | the first entry with `id == Some(user_id)`, `None` exactly when none has it |
| ExampleOtpHandlers.ResetUserOtp | example/src/otp_handlers.rs:12-15 | both flags `Some(false)`, no URI or secret; id, e-mail, name, password and both timestamps kept |
| ExampleOtpHandlers.DisableFirst | example/src/otp_handlers.rs:11-15 | same length; only the first entry with the id is reset and every other entry is unchanged; no match leaves the vector as it was |
| ExampleOtpHandlers.DisableFirstKeepsIndex | example/src/otp_handlers.rs:11-15 | after the reset the same entry is still the first with the id |
| ExampleOtpHandlers.DisableFirstIdempotent | example/src/otp_handlers.rs:12-15 | disabling twice leaves the vector as disabling once |
| ExampleOtpHandlers.DisableFirstKeepsRespondable | example/src/otp_handlers.rs:16 | disable keeps every user showable |
| ExampleOtpHandlers.DisableOtpHandlerImpl | example/src/otp_handlers.rs:8-24 | in place: the vector becomes `DisableFirst` of the old one; 404 "No user with Id" when no entry matches, else 200 with the updated entry and `otp_disabled: true` |

## Left out

- HTTP plumbing is not modelled: actix routing, the `config` functions, the
  health checker, JSON (de)serialisation, CORS, logging and environment
  loading. Responses are a status code plus a body datatype.
- The `Arc<Mutex<…>>` locking and the `GenericRepo` enum dispatch of
  `src/db/mod.rs` are not modelled. Each store is one sequential value.
  `src/db/mod.rs` is not part of this model.
- `src/db/sql/mysql.rs` is entirely commented out and is not part of this
  model.
- HMAC-SHA1 and HOTP truncation inside `totp_rs` are foreign code. They are
  the parameter `hotp`.
- Randomness, UUIDs, row ids and clock readings are foreign. They are
  parameters.
- Database driver semantics are not modelled: query building, cursors and
  the wire protocol. Each store is a sequence of records, and driver failures
  are boolean parameters.
- The order of rows in an SQL result without `ORDER BY` is unspecified. The
  model takes table order.
- MongoUser.Find: assumes that a cursor with no result gives `None`. The
  source calls `deserialize_current().unwrap()` even when `advance()`
  returns `Ok(false)`.
- Text.ToLower: lower-cases ASCII `A`–`Z` only, not Rust's full Unicode
  `to_lowercase`.
- OtpHandlers.Accepts: `check_current(..).unwrap()` panics only when the
  system clock is before the Unix epoch. The clock is a `nat` parameter, so
  that error cannot arise in the model.
- Base32.Decode: strict, so any character outside A–Z2–7 is rejected. The
  leniency of the `base32` crate (lower case, `=` padding) is not modelled.
- Totp.Counter: uses unbounded integers. The `u64` arithmetic of `totp_rs`
  is not modelled, including the window's lower bound at time 0.
- The Mongo handlers receive `User` and the library's handlers need
  `AuthUser`. The OTP handlers are modelled over `AuthUser`; the mismatch
  comes from the `Repo` trait signature, which does not match the
  implementations.
- The example revision's generate, verify and validate handlers are not part
  of this model. `example/src/otp_handlers.rs` contains only disable.
