/** Response bodies and the public projection of a stored user
    (src/response.rs), plus the HTTP status codes the handlers answer with. */
module Response {
  import opened Wrappers
  import opened Models

  /** `{"status": …, "message": …}`. */
  datatype GenericResponse = GenericResponse(status: string, message: string)

  /** `GenericResponse::ok`. */
  function OkResponse(message: string): (r: GenericResponse)
    ensures r.status == "success" && r.message == message
  {
    GenericResponse("success", message)
  }

  /** `GenericResponse::error`. */
  function ErrorResponse(message: string): (r: GenericResponse)
    ensures r.status == "error" && r.message == message
  {
    GenericResponse("error", message)
  }

  /** Why a repository registration failed (`Box<dyn Error>`): the address
      was already there (`InvalidData`) or the insert returned an error. */
  datatype RepoError = InvalidData | InsertFailed

  /** The public view of a user (`UserData`): no password, flags unwrapped. */
  datatype UserData = UserData(
    id: string,
    email: string,
    name: string,
    otpEnabled: bool,
    otpVerified: bool,
    otpBase32: Option<string>,
    otpAuthUrl: Option<string>,
    createdAt: Timestamp,
    updatedAt: Timestamp)

  /** What `From<AuthUser> for UserData` unwraps: without these it panics. */
  predicate Projectable(u: AuthUser) {
    u.otpEnabled.Some? && u.otpVerified.Some? && u.createdAt.Some? && u.updatedAt.Some?
  }

  /** `UserData::from`: copies identity, secret fields and timestamps,
      unwraps the flags and drops the password. */
  function UserDataFrom(u: AuthUser): (d: UserData)
    requires Projectable(u)
    ensures d.id == u.id && d.email == u.email && d.name == u.name
    ensures d.otpBase32 == u.otpBase32 && d.otpAuthUrl == u.otpAuthUrl
    ensures Some(d.otpEnabled) == u.otpEnabled && Some(d.otpVerified) == u.otpVerified
    ensures Some(d.createdAt) == u.createdAt && Some(d.updatedAt) == u.updatedAt
  {
    UserData(u.id, u.email, u.name, u.otpEnabled.value, u.otpVerified.value,
             u.otpBase32, u.otpAuthUrl, u.createdAt.value, u.updatedAt.value)
  }

  /** The projection loses the password and nothing else: two projectable
      users have the same view exactly when they differ at most in password. */
  lemma UserDataFromForgetsOnlyPassword(u: AuthUser, v: AuthUser)
    requires Projectable(u) && Projectable(v)
    ensures UserDataFrom(u) == UserDataFrom(v) <==> u.(password := v.password) == v
  {
    if UserDataFrom(u) == UserDataFrom(v) {
      assert u.otpEnabled == v.otpEnabled && u.otpVerified == v.otpVerified;
      assert u.createdAt == v.createdAt && u.updatedAt == v.updatedAt;
    }
  }

  datatype StatusCode = HttpOk | BadRequest | Forbidden | NotFound | Conflict | InternalServerError {
    /** The numeric code on the wire. */
    function Number(): nat {
      match this
      case HttpOk => 200
      case BadRequest => 400
      case Forbidden => 403
      case NotFound => 404
      case Conflict => 409
      case InternalServerError => 500
    }
  }

  /** The JSON bodies the handlers send. */
  datatype Body =
    | Message(status: string, message: string)           // GenericResponse or json!({"status", "message"})
    | Disabled(user: UserData, otpDisabled: bool)        // {"user", "otp_disabled"}
    | Verified(otpVerified: bool, user: UserData)        // {"otp_verified", "user"}
    | Validated(otpValid: bool)                          // {"otp_valid"}
    | Generated(base32: string, otpauthUrl: string)      // {"base32", "otpauth_url"}
    | LoggedIn(status: string, user: UserData)           // UserResponse

  datatype HttpResponse = HttpResponse(code: StatusCode, body: Body)

  /** The 404 answer of every OTP handler for an unknown id. */
  function UserNotFound(userId: string): (r: HttpResponse)
    ensures r.code == NotFound && r.body.Message? && r.body.status == "fail"
    ensures r.body.message == "No user with Id: " + userId + " found"
  {
    HttpResponse(NotFound, Message("fail", "No user with Id: " + userId + " found"))
  }
}
