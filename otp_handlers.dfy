/** The four one-time-password handlers (src/otp_handlers.rs). Each looks
    the user up by the field `"user_id"`, branches on the record's OTP
    fields and answers with a response; the updated copy of the record it
    builds is never written back, so the repository is only read. */
module OtpHandlers {
  import opened Wrappers
  import opened Models
  import opened Response
  import opened Base32
  import opened Totp

  /** The field every handler looks the user up by. */
  const LookupField: string := "user_id"

  /** The repository's `find_user_by_custom_field(field_name, value)`, as the
      handlers see it: a read of the store that cannot change it. */
  type Lookup = (string, string) -> Option<AuthUser>

  /** A handler's answer and the handler's local copy of the user after its
      assignments (`None` when no user was found). */
  datatype Outcome = Outcome(response: HttpResponse, user: Option<AuthUser>)

  /** The full reset of disable: both flags false, no secret, no URI. */
  function ResetOtp(u: AuthUser): (r: AuthUser)
    ensures NoOtp(r) && SecretsPaired(r) && SameAccount(r, u)
  {
    u.(otpEnabled := Some(false), otpVerified := Some(false), otpAuthUrl := None, otpBase32 := None)
  }

  /** Resetting twice is resetting once. */
  lemma ResetOtpIdempotent(u: AuthUser)
    ensures ResetOtp(ResetOtp(u)) == ResetOtp(u)
  {
  }

  /** The update of a successful verify: both flags true, secret kept. */
  function MarkVerified(u: AuthUser): (r: AuthUser)
    ensures r.otpEnabled == Some(true) && r.otpVerified == Some(true)
    ensures r.otpBase32 == u.otpBase32 && r.otpAuthUrl == u.otpAuthUrl && SameAccount(r, u)
  {
    u.(otpEnabled := Some(true), otpVerified := Some(true))
  }

  /** The update of generate: a new secret and URI, flags untouched. */
  function WithSecret(u: AuthUser, secret: string, url: string): (r: AuthUser)
    ensures r.otpBase32 == Some(secret) && r.otpAuthUrl == Some(url) && SecretsPaired(r)
    ensures r.otpEnabled == u.otpEnabled && r.otpVerified == u.otpVerified && SameAccount(r, u)
  {
    u.(otpBase32 := Some(secret), otpAuthUrl := Some(url))
  }

  /** Whether the TOTP built from a stored base32 secret accepts `token` at
      `now`. `TOTP::new` refuses a key shorter than 128 bits, and the
      handlers unwrap its result, so the decoded key must be that long. */
  predicate Accepts(hotp: Hotp, secret: string, token: string, now: nat): (b: bool)
    requires UsableSecret(secret)
    ensures b <==> var key := Decode(secret).value;
      token == hotp(key, Counter(now) - 1) || token == hotp(key, Counter(now)) || token == hotp(key, Counter(now) + 1)
  {
    CheckCurrent(hotp, Decode(secret).value, token, now)
  }

  /** A stored secret the handlers can build a TOTP from: base32 text
      (`to_bytes().unwrap()`) of at least 128 bits (`TOTP::new(..).unwrap()`). */
  predicate UsableSecret(secret: string) {
    IsBase32(secret) && |Decode(secret).value| >= MinSecretBytes
  }

  /** `disable_otp_handler_inner`. Answers with the reset user and
      `"otp_disabled": true`; `UserData::from` needs the timestamps. */
  function DisableOtpHandlerInner(userId: string, repo: Lookup): (o: Outcome)
    requires var found := repo(LookupField, userId);
      found.Some? ==> found.value.createdAt.Some? && found.value.updatedAt.Some?
    ensures repo(LookupField, userId).None? ==> o == Outcome(UserNotFound(userId), None)
    ensures repo(LookupField, userId).Some? ==>
      var u := repo(LookupField, userId).value;
      o.user.Some? && NoOtp(o.user.value) && SameAccount(o.user.value, u) &&
      o.response == HttpResponse(HttpOk, Disabled(UserDataFrom(o.user.value), true))
  {
    match repo(LookupField, userId)
    case None => Outcome(UserNotFound(userId), None)
    case Some(u) =>
      var user := ResetOtp(u);
      Outcome(HttpResponse(HttpOk, Disabled(UserDataFrom(user), true)), Some(user))
  }

  /** `validate_otp_handler_inner`: a read-only check. Only an explicit
      `otp_enabled == Some(false)` is refused as "2FA not enabled"; an unset
      flag goes on to the token check. The stored secret must decode (the
      `unwrap` on `to_bytes`). */
  function ValidateOtpHandlerInner(body: VerifyOtpSchema, repo: Lookup, hotp: Hotp, now: nat): (r: HttpResponse)
    requires var found := repo(LookupField, body.userId);
      found.Some? && found.value.otpEnabled != Some(false) && found.value.otpBase32.Some? ==>
      UsableSecret(found.value.otpBase32.value)
    ensures repo(LookupField, body.userId).None? ==> r == UserNotFound(body.userId)
    ensures repo(LookupField, body.userId).Some? ==>
      var u := repo(LookupField, body.userId).value;
      (u.otpEnabled == Some(false) <==> r == HttpResponse(Forbidden, Message("fail", "2FA not enabled"))) &&
      (u.otpEnabled != Some(false) && u.otpBase32.None? <==>
         r == HttpResponse(InternalServerError, Message("fail", "OTP base32 is missing"))) &&
      (r.code == HttpOk <==>
         u.otpEnabled != Some(false) && u.otpBase32.Some? && Accepts(hotp, u.otpBase32.value, body.token, now)) &&
      (u.otpEnabled != Some(false) && u.otpBase32.Some? && !Accepts(hotp, u.otpBase32.value, body.token, now) ==>
         r == HttpResponse(Forbidden, Message("fail", "Token is invalid or user doesn't exist")))
    ensures r.code == HttpOk ==> r.body == Validated(true)
  {
    match repo(LookupField, body.userId)
    case None => UserNotFound(body.userId)
    case Some(u) =>
      if u.otpEnabled == Some(false) then
        HttpResponse(Forbidden, Message("fail", "2FA not enabled"))
      else if u.otpBase32.None? then
        HttpResponse(InternalServerError, Message("fail", "OTP base32 is missing"))
      else if !Accepts(hotp, u.otpBase32.value, body.token, now) then
        HttpResponse(Forbidden, Message("fail", "Token is invalid or user doesn't exist"))
      else
        HttpResponse(HttpOk, Validated(true))
  }

  /** `verify_otp_handler_inner`. The stored secret must be present and
      decode (the two `unwrap`s); the projection of a verified user needs
      its timestamps. */
  function VerifyOtpHandlerInner(body: VerifyOtpSchema, repo: Lookup, hotp: Hotp, now: nat): (o: Outcome)
    requires var found := repo(LookupField, body.userId);
      found.Some? ==>
        found.value.otpBase32.Some? && UsableSecret(found.value.otpBase32.value) &&
        (Accepts(hotp, found.value.otpBase32.value, body.token, now) ==>
           found.value.createdAt.Some? && found.value.updatedAt.Some?)
    ensures repo(LookupField, body.userId).None? ==> o == Outcome(UserNotFound(body.userId), None)
    ensures repo(LookupField, body.userId).Some? ==>
      var u := repo(LookupField, body.userId).value;
      o.user.Some? &&
      (o.response.code == HttpOk <==> Accepts(hotp, u.otpBase32.value, body.token, now)) &&
      (o.response.code == HttpOk ==>
         var v := o.user.value;
         v.otpEnabled == Some(true) && v.otpVerified == Some(true) &&
         v.otpBase32 == u.otpBase32 && v.otpAuthUrl == u.otpAuthUrl && SameAccount(v, u) &&
         o.response.body == Verified(true, UserDataFrom(v))) &&
      (o.response.code != HttpOk ==>
         o.user.value == u &&
         o.response == HttpResponse(Forbidden, Message("fail", "Token is invalid or user doesn't exist")))
  {
    match repo(LookupField, body.userId)
    case None => Outcome(UserNotFound(body.userId), None)
    case Some(u) =>
      if !Accepts(hotp, u.otpBase32.value, body.token, now) then
        Outcome(HttpResponse(Forbidden, Message("fail", "Token is invalid or user doesn't exist")), Some(u))
      else
        var user := MarkVerified(u);
        Outcome(HttpResponse(HttpOk, Verified(true, UserDataFrom(user))), Some(user))
  }

  /** `generate_otp_handler_inner` with the 21 random bytes as a parameter.
      The secret is their base32 encoding; building the TOTP decodes it and
      `get_secret_base32` encodes it again, which gives back the same text,
      so neither `unwrap` can fail. The URI names the e-mail of the request
      body, not the stored one. */
  function GenerateOtpHandlerInner(body: GenerateOtpSchema, repo: Lookup, randomBytes: seq<byte>): (o: Outcome)
    requires |randomBytes| == 21
    ensures repo(LookupField, body.userId).None? ==> o == Outcome(UserNotFound(body.userId), None)
    ensures repo(LookupField, body.userId).Some? ==>
      var u := repo(LookupField, body.userId).value;
      o.response.code == HttpOk && o.response.body.Generated? &&
      var secret := o.response.body.base32;
      var url := o.response.body.otpauthUrl;
      secret == Encode(randomBytes) && |secret| == 34 && IsBase32(secret) && Decode(secret) == Some(randomBytes) &&
      url == OtpAuthUrl(Issuer, body.email, secret) &&
      o.user.Some? && o.user.value.otpBase32 == Some(secret) && o.user.value.otpAuthUrl == Some(url) &&
      o.user.value.otpEnabled == u.otpEnabled && o.user.value.otpVerified == u.otpVerified &&
      SameAccount(o.user.value, u)
  {
    match repo(LookupField, body.userId)
    case None => Outcome(UserNotFound(body.userId), None)
    case Some(u) =>
      var base32String := Encode(randomBytes);
      EncodeDecodeEncode(randomBytes);
      DecodeEncode(randomBytes);
      SecretLength(randomBytes);
      var otpBase32 := Encode(Decode(base32String).value);
      var otpAuthUrl := OtpAuthUrl(Issuer, body.email, otpBase32);
      var user := WithSecret(u, otpBase32, otpAuthUrl);
      Outcome(HttpResponse(HttpOk, Generated(otpBase32, otpAuthUrl)), Some(user))
  }

  /** A repository holding exactly one user under its id. */
  function Holding(userId: string, u: AuthUser): (repo: Lookup)
    ensures repo(LookupField, userId) == Some(u)
  {
    (field: string, value: string) => if field == LookupField && value == userId then Some(u) else None
  }

  /** Were each handler's copy written back, the enrolment cycle would run as
      designed: after generate, the code of the generated secret at the
      current step verifies and enables OTP, and a later disable resets it.
      The handlers do not write it back, so the stored record never takes
      these states. */
  lemma WrittenBackLifecycle(userId: string, email: string, u: AuthUser,
                             randomBytes: seq<byte>, hotp: Hotp, now: nat)
    requires |randomBytes| == 21
    requires u.createdAt.Some? && u.updatedAt.Some?
    ensures var g := GenerateOtpHandlerInner(GenerateOtpSchema(email, userId), Holding(userId, u), randomBytes);
      g.user.Some? &&
      var token := hotp(randomBytes, Counter(now));
      var v := VerifyOtpHandlerInner(VerifyOtpSchema(userId, token), Holding(userId, g.user.value), hotp, now);
      v.response.code == HttpOk && v.user.Some? &&
      v.user.value.otpEnabled == Some(true) && v.user.value.otpVerified == Some(true) &&
      var d := DisableOtpHandlerInner(userId, Holding(userId, v.user.value));
      d.user.Some? && NoOtp(d.user.value) && SameAccount(d.user.value, u)
  {
    var g := GenerateOtpHandlerInner(GenerateOtpSchema(email, userId), Holding(userId, u), randomBytes);
    var gu := g.user.value;
    var token := hotp(randomBytes, Counter(now));
    CurrentCodeAccepted(hotp, randomBytes, now);
    assert Accepts(hotp, gu.otpBase32.value, token, now);
    var v := VerifyOtpHandlerInner(VerifyOtpSchema(userId, token), Holding(userId, gu), hotp, now);
    var d := DisableOtpHandlerInner(userId, Holding(userId, v.user.value));
  }

  /** Validate of a disabled user is refused whatever the token: the
      scenario "disable, then validate" answers "2FA not enabled". */
  lemma ValidateAfterDisableRefused(userId: string, u: AuthUser, token: string, hotp: Hotp, now: nat)
    requires u.createdAt.Some? && u.updatedAt.Some?
    ensures var d := DisableOtpHandlerInner(userId, Holding(userId, u));
      d.user.Some? &&
      ValidateOtpHandlerInner(VerifyOtpSchema(userId, token), Holding(userId, d.user.value), hotp, now)
        == HttpResponse(Forbidden, Message("fail", "2FA not enabled"))
  {
  }
}
