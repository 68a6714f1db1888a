/** The records the core passes around: the stored user in its two shapes
    and the request bodies of the HTTP endpoints. */
module Models {
  import opened Wrappers
  import opened Text

  /** A UTC instant (`DateTime<Utc>`), in seconds since the epoch. */
  type Timestamp = int

  /** The user document of the Mongo back end and of the in-memory example
      (`User`): the id is optional and the password always present. */
  datatype User = User(
    id: Option<string>,
    email: string,
    name: string,
    password: string,
    otpEnabled: Option<bool>,
    otpVerified: Option<bool>,
    otpBase32: Option<string>,
    otpAuthUrl: Option<string>,
    createdAt: Option<Timestamp>,
    updatedAt: Option<Timestamp>)

  /** A row of the `auth_users` table (`AuthUser`): the id is always present
      and the password optional. */
  datatype AuthUser = AuthUser(
    id: string,
    email: string,
    name: string,
    password: Option<string>,
    otpEnabled: Option<bool>,
    otpVerified: Option<bool>,
    otpBase32: Option<string>,
    otpAuthUrl: Option<string>,
    createdAt: Option<Timestamp>,
    updatedAt: Option<Timestamp>)

  /** The values inserted into `auth_users` (`NewUser`); the table assigns the id. */
  datatype NewUser = NewUser(
    email: string,
    name: string,
    password: string,
    otpEnabled: Option<bool>,
    otpVerified: Option<bool>,
    otpBase32: Option<string>,
    otpAuthUrl: Option<string>,
    createdAt: Option<Timestamp>,
    updatedAt: Option<Timestamp>)

  datatype UserRegisterSchema = UserRegisterSchema(name: string, email: string, password: string)

  datatype UserLoginSchema = UserLoginSchema(email: string, password: string)

  datatype GenerateOtpSchema = GenerateOtpSchema(email: string, userId: string)

  datatype VerifyOtpSchema = VerifyOtpSchema(userId: string, token: string)

  /** The secret and the provisioning URI are present together or absent together. */
  predicate SecretsPaired(u: AuthUser) {
    u.otpBase32.Some? <==> u.otpAuthUrl.Some?
  }

  /** The state after a reset: both flags false and no secret retained. */
  predicate NoOtp(u: AuthUser) {
    u.otpEnabled == Some(false) && u.otpVerified == Some(false) &&
    u.otpBase32.None? && u.otpAuthUrl.None?
  }

  /** `u` and `v` agree on everything but the four OTP fields. */
  predicate SameAccount(u: AuthUser, v: AuthUser) {
    u.id == v.id && u.email == v.email && u.name == v.name && u.password == v.password &&
    u.createdAt == v.createdAt && u.updatedAt == v.updatedAt
  }

  /** The user that registration creates, in the in-memory example and in
      the Mongo back end alike: fresh id, lower-cased e-mail, both flags
      `Some(false)`, no secret, one clock reading for both timestamps. */
  function NewUserDocument(req: UserRegisterSchema, uuid: string, now: Timestamp): (u: User)
    ensures u.id == Some(uuid) && u.email == ToLower(req.email) && IsLower(u.email)
    ensures u.name == req.name && u.password == req.password
    ensures u.otpEnabled == Some(false) && u.otpVerified == Some(false)
    ensures u.otpBase32.None? && u.otpAuthUrl.None?
    ensures u.createdAt == Some(now) && u.updatedAt == u.createdAt
  {
    User(Some(uuid), ToLower(req.email), req.name, req.password,
         Some(false), Some(false), None, None, Some(now), Some(now))
  }

  /** Every stored address occurs once. */
  predicate EmailsDistinct(docs: seq<User>) {
    forall i, j :: 0 <= i < j < |docs| ==> docs[i].email != docs[j].email
  }

  /** Every stored address is in lower case. */
  predicate EmailsLower(docs: seq<User>) {
    forall i :: 0 <= i < |docs| ==> IsLower(docs[i].email)
  }
}
