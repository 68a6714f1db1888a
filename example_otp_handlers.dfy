/** The in-memory revision's disable handler (example/src/otp_handlers.rs):
    it resets, in place, the first user of the shared vector whose id
    matches. */
module ExampleOtpHandlers {
  import opened Wrappers
  import opened Seqs
  import opened Models
  import opened Response
  import opened ExampleService

  /** The position of the first user with this id. */
  function IndexOfId(db: seq<User>, userId: string): (r: Option<nat>)
    ensures r.Some? ==> r.value < |db| && db[r.value].id == Some(userId)
    ensures r.Some? ==> forall j :: 0 <= j < r.value ==> db[j].id != Some(userId)
    ensures r.None? <==> forall j :: 0 <= j < |db| ==> db[j].id != Some(userId)
  {
    FirstWhere(db, (u: User) => u.id == Some(userId))
  }

  /** The reset written into the entry: both flags false, no URI, no secret;
      id, address, name, password and both timestamps kept. */
  function ResetUserOtp(u: User): (r: User)
    ensures r.otpEnabled == Some(false) && r.otpVerified == Some(false)
    ensures r.otpAuthUrl.None? && r.otpBase32.None?
    ensures r.id == u.id && r.email == u.email && r.name == u.name && r.password == u.password
    ensures r.createdAt == u.createdAt && r.updatedAt == u.updatedAt
  {
    u.(otpEnabled := Some(false), otpVerified := Some(false), otpAuthUrl := None, otpBase32 := None)
  }

  /** The vector after disable: the first entry with the id reset, every
      other entry as it was; no match leaves it as it was. */
  function DisableFirst(db: seq<User>, userId: string): (r: seq<User>)
    ensures |r| == |db|
    ensures IndexOfId(db, userId).None? ==> r == db
    ensures IndexOfId(db, userId).Some? ==>
      var k := IndexOfId(db, userId).value;
      r[k] == ResetUserOtp(db[k]) && forall j :: 0 <= j < |db| && j != k ==> r[j] == db[j]
  {
    match IndexOfId(db, userId)
    case None => db
    case Some(k) => db[k := ResetUserOtp(db[k])]
  }

  /** The reset keeps the id, so the same entry is found again. */
  lemma DisableFirstKeepsIndex(db: seq<User>, userId: string)
    ensures IndexOfId(DisableFirst(db, userId), userId) == IndexOfId(db, userId)
  {
    var after := DisableFirst(db, userId);
    match IndexOfId(db, userId)
    case None =>
    case Some(k) =>
      assert after[k].id == Some(userId);
      assert forall j :: 0 <= j < k ==> after[j] == db[j];
      FirstWhereIs(after, (u: User) => u.id == Some(userId), k);
  }

  /** Disabling twice leaves the vector as disabling once. */
  lemma DisableFirstIdempotent(db: seq<User>, userId: string)
    ensures DisableFirst(DisableFirst(db, userId), userId) == DisableFirst(db, userId)
  {
    DisableFirstKeepsIndex(db, userId);
    var once := DisableFirst(db, userId);
    var twice := DisableFirst(once, userId);
    match IndexOfId(db, userId)
    case None =>
    case Some(k) =>
      assert forall j :: 0 <= j < |db| ==> twice[j] == once[j];
  }

  /** Disable keeps every user showable. */
  lemma DisableFirstKeepsRespondable(db: seq<User>, userId: string)
    requires AllRespondable(db)
    ensures AllRespondable(DisableFirst(db, userId))
  {
  }

  /** `disable_otp_handler_impl`: find the first entry with the id and reset
      it in place; 404 when there is none. `user_to_response` needs the
      entry's timestamps. */
  method DisableOtpHandlerImpl(userId: string, data: AppState) returns (resp: HttpResponse)
    requires IndexOfId(data.db, userId).Some? ==>
      data.db[IndexOfId(data.db, userId).value].createdAt.Some? &&
      data.db[IndexOfId(data.db, userId).value].updatedAt.Some?
    modifies data
    ensures data.db == DisableFirst(old(data.db), userId)
    ensures IndexOfId(old(data.db), userId).None? ==> resp == UserNotFound(userId)
    ensures IndexOfId(old(data.db), userId).Some? ==>
      var k := IndexOfId(old(data.db), userId).value;
      resp == HttpResponse(HttpOk, Disabled(UserToResponse(data.db[k]), true))
  {
    var i := 0;
    while i < |data.db| && data.db[i].id != Some(userId)
      invariant 0 <= i <= |data.db|
      invariant forall j :: 0 <= j < i ==> data.db[j].id != Some(userId)
    {
      i := i + 1;
    }
    if i < |data.db| {
      assert IndexOfId(data.db, userId) == Some(i);
      var user := data.db[i];
      user := user.(otpEnabled := Some(false));
      user := user.(otpVerified := Some(false));
      user := user.(otpAuthUrl := None);
      user := user.(otpBase32 := None);
      data.db := data.db[i := user];
      resp := HttpResponse(HttpOk, Disabled(UserToResponse(data.db[i]), true));
    } else {
      resp := UserNotFound(userId);
    }
  }
}
