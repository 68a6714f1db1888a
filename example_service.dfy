/** The in-memory revision's register and login endpoints
    (example/src/service.rs). The shared state is a vector of users behind
    a lock (`AppState.db`); register scans it and pushes, login only reads. */
module ExampleService {
  import opened Wrappers
  import opened Text
  import opened Seqs
  import opened Models
  import opened Response

  /** The application state (`AppState`); `db` is the locked `Vec<User>`. */
  class AppState {
    var db: seq<User>

    constructor (users: seq<User>)
      ensures db == users
    {
      db := users;
    }
  }

  /** What `user_to_response` unwraps: without these it panics. */
  predicate Respondable(u: User) {
    u.id.Some? && u.otpEnabled.Some? && u.otpVerified.Some? && u.createdAt.Some? && u.updatedAt.Some?
  }

  /** Every stored user can be shown. */
  predicate AllRespondable(db: seq<User>) {
    forall i :: 0 <= i < |db| ==> Respondable(db[i])
  }

  /** `user_to_response`: the public view of a stored user, without the
      password. */
  function UserToResponse(u: User): (d: UserData)
    requires Respondable(u)
    ensures Some(d.id) == u.id && d.email == u.email && d.name == u.name
    ensures d.otpBase32 == u.otpBase32 && d.otpAuthUrl == u.otpAuthUrl
    ensures Some(d.otpEnabled) == u.otpEnabled && Some(d.otpVerified) == u.otpVerified
    ensures Some(d.createdAt) == u.createdAt && Some(d.updatedAt) == u.updatedAt
  {
    UserData(u.id.value, u.email, u.name, u.otpEnabled.value, u.otpVerified.value,
             u.otpBase32, u.otpAuthUrl, u.createdAt.value, u.updatedAt.value)
  }

  /** The first stored user with exactly this address. */
  function FindByEmail(db: seq<User>, email: string): (r: Option<User>)
    ensures r.Some? ==> r.value in db && r.value.email == email
    ensures r.Some? ==> exists k :: (0 <= k < |db| && db[k] == r.value &&
                                     forall j :: 0 <= j < k ==> db[j].email != email)
    ensures r.None? <==> forall i :: 0 <= i < |db| ==> db[i].email != email
  {
    FindWhere(db, (u: User) => u.email == email)
  }

  datatype Registration = Registration(response: HttpResponse, db: seq<User>)

  /** What register does to the vector: 409 naming the stored address if
      any user already has the lower-cased one, otherwise one new user at
      the end. */
  function Register(db: seq<User>, body: UserRegisterSchema, uuid: string, now: Timestamp): (r: Registration)
    ensures FindByEmail(db, ToLower(body.email)).Some? ==>
      r.db == db &&
      r.response == HttpResponse(Conflict, Message("fail", "User with email: " + ToLower(body.email) + " already exists"))
    ensures FindByEmail(db, ToLower(body.email)).None? ==>
      r.db == db + [NewUserDocument(body, uuid, now)] &&
      r.response == HttpResponse(HttpOk, Message("success", "Registered successfully, please login"))
  {
    match FindByEmail(db, ToLower(body.email))
    case Some(user) =>
      Registration(HttpResponse(Conflict, Message("fail", "User with email: " + user.email + " already exists")), db)
    case None =>
      Registration(HttpResponse(HttpOk, Message("success", "Registered successfully, please login")),
                   db + [NewUserDocument(body, uuid, now)])
  }

  /** If the stored addresses are lower case and distinct, they still are
      after register; and every user stays showable. */
  lemma RegisterKeepsEmailsUnique(db: seq<User>, body: UserRegisterSchema, uuid: string, now: Timestamp)
    requires EmailsLower(db) && EmailsDistinct(db) && AllRespondable(db)
    ensures var after := Register(db, body, uuid, now).db;
      EmailsLower(after) && EmailsDistinct(after) && AllRespondable(after)
  {
    var after := Register(db, body, uuid, now).db;
    if FindByEmail(db, ToLower(body.email)).None? {
      var u := NewUserDocument(body, uuid, now);
      assert after == db + [u];
      assert forall i :: 0 <= i < |db| ==> after[i] == db[i];
      assert after[|db|] == u;
    }
  }

  /** Two requests whose addresses differ only in case cannot both register. */
  lemma CaseVariantConflicts(db: seq<User>, first: UserRegisterSchema, second: UserRegisterSchema,
                             uuid1: string, uuid2: string, now: Timestamp)
    requires ToLower(first.email) == ToLower(second.email)
    ensures var r1 := Register(db, first, uuid1, now);
      Register(r1.db, second, uuid2, now).response.code == Conflict
  {
    var r1 := Register(db, first, uuid1, now);
    if FindByEmail(db, ToLower(first.email)).None? {
      assert r1.db[|db|].email == ToLower(second.email);
    }
  }

  /** `register_user_handler`: scan the vector for the lower-cased address,
      then push the new user. */
  method RegisterUserHandler(body: UserRegisterSchema, data: AppState, uuid: string, now: Timestamp)
    returns (resp: HttpResponse)
    modifies data
    ensures Registration(resp, data.db) == Register(old(data.db), body, uuid, now)
  {
    var vec := data.db;
    var i := 0;
    while i < |vec|
      invariant 0 <= i <= |vec|
      invariant forall j :: 0 <= j < i ==> vec[j].email != ToLower(body.email)
    {
      var user := vec[i];
      if user.email == ToLower(body.email) {
        resp := HttpResponse(Conflict, Message("fail", "User with email: " + user.email + " already exists"));
        return;
      }
      i := i + 1;
    }
    var user := NewUserDocument(body, uuid, now);
    data.db := vec + [user];
    resp := HttpResponse(HttpOk, Message("success", "Registered successfully, please login"));
  }

  /** `login_user_handler` on the vector's contents: the first user whose
      address equals the lower-cased request address, or 400. The password
      is not compared and nothing changes. */
  function LoginUserHandler(body: UserLoginSchema, db: seq<User>): (r: HttpResponse)
    requires var found := FindByEmail(db, ToLower(body.email)); found.Some? ==> Respondable(found.value)
    ensures FindByEmail(db, ToLower(body.email)).None? <==>
      r == HttpResponse(BadRequest, Message("fail", "Invalid email or password"))
    ensures FindByEmail(db, ToLower(body.email)).Some? ==>
      r == HttpResponse(HttpOk, LoggedIn("success", UserToResponse(FindByEmail(db, ToLower(body.email)).value)))
  {
    var user := FindByEmail(db, ToLower(body.email));
    if user.None? then HttpResponse(BadRequest, Message("fail", "Invalid email or password"))
    else HttpResponse(HttpOk, LoggedIn("success", UserToResponse(user.value)))
  }

  /** Login neither reads the password nor changes anything: the answer is
      the same whatever password the request carries. */
  lemma LoginIgnoresPassword(body: UserLoginSchema, password: string, db: seq<User>)
    requires var found := FindByEmail(db, ToLower(body.email)); found.Some? ==> Respondable(found.value)
    ensures LoginUserHandler(body, db) == LoginUserHandler(body.(password := password), db)
  {
  }

  /** After a successful register, logging in with the same address in any
      case, and any password, shows the new user. */
  lemma {:induction false} RegisterThenLogin(db: seq<User>, body: UserRegisterSchema, uuid: string, now: Timestamp,
                                             login: UserLoginSchema)
    requires FindByEmail(db, ToLower(body.email)).None?
    requires ToLower(login.email) == ToLower(body.email)
    ensures var after := Register(db, body, uuid, now).db;
      LoginUserHandler(login, after) ==
        HttpResponse(HttpOk, LoggedIn("success", UserToResponse(NewUserDocument(body, uuid, now))))
  {
    var after := Register(db, body, uuid, now).db;
    var u := NewUserDocument(body, uuid, now);
    FirstWhereAppend(db, u, (v: User) => v.email == ToLower(login.email));
    assert FindByEmail(after, ToLower(login.email)) == Some(u);
  }
}
