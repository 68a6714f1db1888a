/** The bodies of the register and login endpoints (src/service.rs): they
    turn what the repository returns into a response. */
module Service {
  import opened Wrappers
  import opened Text
  import opened Models
  import opened Response
  import MongoUser
  import Postgres

  /** Register's answer to the repository's result: any error, an insert
      failure included, is reported as an existing address, naming the
      address as the request sent it. */
  function RegisterInner(body: UserRegisterSchema, repoResult: Result<GenericResponse, RepoError>): (r: HttpResponse)
    ensures r.code == HttpOk <==> repoResult.Ok?
    ensures repoResult.Ok? ==> r.body == Message("success", "user registered")
    ensures repoResult.Err? ==>
      r == HttpResponse(BadRequest, Message("error", "user with email " + body.email + " already exists"))
  {
    var email := body.email;
    if repoResult.Ok? then HttpResponse(HttpOk, Message("success", "user registered"))
    else HttpResponse(BadRequest, Message("error", "user with email " + email + " already exists"))
  }

  /** Login's answer given the repository's `find_user_by_email`: the
      address is lower-cased before the search and the password is never
      looked at. `UserData::from` needs the found user's flags and
      timestamps. */
  function LoginInner(body: UserLoginSchema, findByEmail: string -> Option<AuthUser>): (r: HttpResponse)
    requires findByEmail(ToLower(body.email)).Some? ==> Projectable(findByEmail(ToLower(body.email)).value)
    ensures findByEmail(ToLower(body.email)).None? <==>
      r == HttpResponse(BadRequest, Message("fail", "Invalid email or password"))
    ensures findByEmail(ToLower(body.email)).Some? ==>
      r == HttpResponse(HttpOk, LoggedIn("success", UserDataFrom(findByEmail(ToLower(body.email)).value)))
  {
    var user := findByEmail(ToLower(body.email));
    if user.None? then HttpResponse(BadRequest, Message("fail", "Invalid email or password"))
    else HttpResponse(HttpOk, LoggedIn("success", UserDataFrom(user.value)))
  }

  /** The password of a login request does not affect the answer. */
  lemma LoginIgnoresPassword(body: UserLoginSchema, password: string, findByEmail: string -> Option<AuthUser>)
    requires findByEmail(ToLower(body.email)).Some? ==> Projectable(findByEmail(ToLower(body.email)).value)
    ensures LoginInner(body, findByEmail) == LoginInner(body.(password := password), findByEmail)
  {
  }

  /** The search of a Postgres table with a fixed query outcome. */
  function PostgresFind(rows: seq<AuthUser>): (f: string -> Option<AuthUser>)
    ensures forall e :: f(e) == Postgres.FindByEmail(rows, e, false)
  {
    (e: string) => Postgres.FindByEmail(rows, e, false)
  }

  /** A one-row table has no other address than its row's. */
  lemma OneRowMissed(row: AuthUser, e: string)
    requires row.email != e
    ensures PostgresFind([row])(e).None?
  {
    assert forall u :: u in [row] ==> u.email != e;
  }

  /** On Postgres, a user registered with an address that is not in lower
      case cannot log in with that same address: the table keeps it as sent
      and login searches for its lower-cased form. */
  lemma PostgresMixedCaseLoginRefused(req: UserRegisterSchema, newId: string, createdNow: Timestamp,
                                      updatedNow: Timestamp, password: string)
    requires ToLower(req.email) != req.email
    ensures var reg := Postgres.Register([], req, newId, createdNow, updatedNow, false, false);
      reg.result.Ok? &&
      LoginInner(UserLoginSchema(req.email, password), PostgresFind(reg.rows))
        == HttpResponse(BadRequest, Message("fail", "Invalid email or password"))
  {
    var reg := Postgres.Register([], req, newId, createdNow, updatedNow, false, false);
    var row := Postgres.Inserted(Postgres.NewRow(req, createdNow, updatedNow), newId);
    assert reg.rows == [row];
    OneRowMissed(row, ToLower(req.email));
  }

  /** On Postgres, a user registered with a lower-case address is found by
      login but cannot be projected: its OTP flags are unset, so the
      `unwrap` in `UserData::from` panics. */
  lemma PostgresLoginOfNewUserNotProjectable(req: UserRegisterSchema, newId: string,
                                             createdNow: Timestamp, updatedNow: Timestamp)
    requires IsLower(req.email)
    ensures var reg := Postgres.Register([], req, newId, createdNow, updatedNow, false, false);
      var found := PostgresFind(reg.rows)(ToLower(req.email));
      reg.result.Ok? && found.Some? && !Projectable(found.value)
  {
    var reg := Postgres.Register([], req, newId, createdNow, updatedNow, false, false);
    ToLowerOfLower(req.email);
    assert reg.rows[0].email == req.email;
  }

  /** On Mongo, registering an address and then its lower-cased form: the
      first is stored lower-cased, so the second is answered with the
      conflict response and nothing more is stored. */
  lemma MongoCaseVariantConflict(first: UserRegisterSchema, second: UserRegisterSchema, id1: string, id2: string,
                                 now: Timestamp)
    requires second.email == ToLower(first.email)
    ensures var m1 := MongoUser.Register([], first, id1, now, false, false, false);
      var m2 := MongoUser.Register(m1.documents, second, id2, now, false, false, false);
      RegisterInner(first, m1.result).code == HttpOk &&
      RegisterInner(second, m2.result).code == BadRequest &&
      m2.documents == m1.documents && |m2.documents| == 1
  {
    var m1 := MongoUser.Register([], first, id1, now, false, false, false);
    var doc := NewUserDocument(first, id1, now);
    assert m1.documents == [doc];
    assert MongoUser.Matches(doc, "email", second.email);
    assert MongoUser.Find(m1.documents, "email", second.email, false, false).Some?;
  }

  /** The same two registrations on Postgres, for an address not in lower
      case, both succeed and leave two rows that differ only in case. */
  lemma PostgresCaseVariantStoredTwice(first: UserRegisterSchema, second: UserRegisterSchema, id1: string, id2: string,
                                       now: Timestamp)
    requires ToLower(first.email) != first.email && second.email == ToLower(first.email)
    ensures var p1 := Postgres.Register([], first, id1, now, now, false, false);
      var p2 := Postgres.Register(p1.rows, second, id2, now, now, false, false);
      RegisterInner(first, p1.result).code == HttpOk &&
      RegisterInner(second, p2.result).code == HttpOk && |p2.rows| == 2 &&
      p2.rows[0].email == first.email && p2.rows[1].email == ToLower(first.email)
  {
    var p1 := Postgres.Register([], first, id1, now, now, false, false);
    var row := Postgres.Inserted(Postgres.NewRow(first, now, now), id1);
    assert p1.rows == [row];
    OneRowMissed(row, second.email);
  }
}
