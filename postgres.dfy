/** The Postgres back end (src/db/sql/postgres.rs): the `auth_users` table
    as a sequence of rows in the order the table returns them. A failed
    query is the parameter `queryFails`, a failed insert `insertFails`; the
    id the table assigns and the two clock readings are parameters too. */
module Postgres {
  import opened Wrappers
  import opened Seqs
  import opened Models
  import opened Response

  datatype Registration = Registration(result: Result<GenericResponse, RepoError>, rows: seq<AuthUser>)

  /** `find_user_by_email`: the first row whose address equals the argument
      exactly; a failed query gives `None`. */
  function FindByEmail(rows: seq<AuthUser>, email: string, queryFails: bool): (r: Option<AuthUser>)
    ensures r.Some? ==> !queryFails && r.value in rows && r.value.email == email
    ensures r.Some? ==> exists k :: (0 <= k < |rows| && rows[k] == r.value &&
                                     forall j :: 0 <= j < k ==> rows[j].email != email)
    ensures r.None? <==> queryFails || forall u :: u in rows ==> u.email != email
  {
    if queryFails then None else FindWhere(rows, (u: AuthUser) => u.email == email)
  }

  /** `find_user_by_id`: the same search on the id column. */
  function FindById(rows: seq<AuthUser>, id: string, queryFails: bool): (r: Option<AuthUser>)
    ensures r.Some? ==> !queryFails && r.value in rows && r.value.id == id
    ensures r.Some? ==> exists k :: (0 <= k < |rows| && rows[k] == r.value &&
                                     forall j :: 0 <= j < k ==> rows[j].id != id)
    ensures r.None? <==> queryFails || forall u :: u in rows ==> u.id != id
  {
    if queryFails then None else FindWhere(rows, (u: AuthUser) => u.id == id)
  }

  /** The values registration inserts: the request's address, name and
      password as sent (no lower-casing), no OTP field set, and two separate
      readings of the clock. */
  function NewRow(req: UserRegisterSchema, createdNow: Timestamp, updatedNow: Timestamp): (n: NewUser)
    ensures n.email == req.email && n.name == req.name && n.password == req.password
    ensures n.otpEnabled.None? && n.otpVerified.None? && n.otpBase32.None? && n.otpAuthUrl.None?
    ensures n.createdAt == Some(createdNow) && n.updatedAt == Some(updatedNow)
  {
    NewUser(req.email, req.name, req.password, None, None, None, None, Some(createdNow), Some(updatedNow))
  }

  /** The row the table holds after inserting `n` under the id it assigns. */
  function Inserted(n: NewUser, id: string): (u: AuthUser)
    ensures u.id == id && u.email == n.email && u.name == n.name && u.password == Some(n.password)
    ensures u.otpEnabled == n.otpEnabled && u.otpVerified == n.otpVerified
    ensures u.otpBase32 == n.otpBase32 && u.otpAuthUrl == n.otpAuthUrl
    ensures u.createdAt == n.createdAt && u.updatedAt == n.updatedAt
  {
    AuthUser(id, n.email, n.name, Some(n.password), n.otpEnabled, n.otpVerified,
             n.otpBase32, n.otpAuthUrl, n.createdAt, n.updatedAt)
  }

  /** `register_user_by_email` on a table. */
  function Register(rows: seq<AuthUser>, req: UserRegisterSchema, newId: string,
                    createdNow: Timestamp, updatedNow: Timestamp,
                    queryFails: bool, insertFails: bool): (r: Registration)
    ensures r.result.Err? <==> FindByEmail(rows, req.email, queryFails).Some? || insertFails
    ensures r.result.Err? ==> r.rows == rows
    ensures r.result.Err? && FindByEmail(rows, req.email, queryFails).Some? ==> r.result.error == InvalidData
    ensures r.result.Ok? ==>
      r.rows == rows + [Inserted(NewRow(req, createdNow, updatedNow), newId)] &&
      r.result.value == OkResponse("registered new user with email: " + req.email)
  {
    if FindByEmail(rows, req.email, queryFails).None? then
      if insertFails then Registration(Err(InsertFailed), rows)
      else
        Registration(Ok(OkResponse("registered new user with email: " + req.email)),
                     rows + [Inserted(NewRow(req, createdNow, updatedNow), newId)])
    else Registration(Err(InvalidData), rows)
  }

  /** Every address in the table occurs once. */
  predicate EmailsDistinct(rows: seq<AuthUser>) {
    forall i, j :: 0 <= i < j < |rows| ==> rows[i].email != rows[j].email
  }

  /** With one writer and a duplicate check that ran, registration keeps the
      addresses of the table distinct (compared exactly, case included). */
  lemma RegisterKeepsEmailsDistinct(rows: seq<AuthUser>, req: UserRegisterSchema, newId: string,
                                    createdNow: Timestamp, updatedNow: Timestamp, insertFails: bool)
    requires EmailsDistinct(rows)
    ensures EmailsDistinct(Register(rows, req, newId, createdNow, updatedNow, false, insertFails).rows)
  {
    var r := Register(rows, req, newId, createdNow, updatedNow, false, insertFails);
    if r.result.Ok? {
      assert forall u :: u in rows ==> u.email != req.email;
      assert forall i :: 0 <= i < |rows| ==> rows[i] in rows;
    }
  }

  /** A registered row has its OTP flags unset, so `UserData::from` would
      panic on it. */
  lemma RegisteredRowNotProjectable(rows: seq<AuthUser>, req: UserRegisterSchema, newId: string,
                                    createdNow: Timestamp, updatedNow: Timestamp, queryFails: bool, insertFails: bool)
    ensures var r := Register(rows, req, newId, createdNow, updatedNow, queryFails, insertFails);
      r.result.Ok? ==> !Projectable(r.rows[|rows|])
  {
  }

  /** The Postgres repository (`PostgresRepo`); the connection's table is
      the sequence of its rows. */
  class PostgresRepo {
    var table: seq<AuthUser>

    constructor Init(rows: seq<AuthUser>)
      ensures table == rows
    {
      table := rows;
    }

    /** `find_user_by_email` on the table. */
    function FindUserByEmail(email: string, queryFails: bool): (r: Option<AuthUser>)
      reads this
      ensures r.Some? ==> !queryFails && r.value in table && r.value.email == email
      ensures r.Some? ==> exists k :: (0 <= k < |table| && table[k] == r.value &&
                                       forall j :: 0 <= j < k ==> table[j].email != email)
      ensures r.None? <==> queryFails || forall u :: u in table ==> u.email != email
    {
      FindByEmail(table, email, queryFails)
    }

    /** `find_user_by_id` on the table. */
    function FindUserById(id: string, queryFails: bool): (r: Option<AuthUser>)
      reads this
      ensures r.Some? ==> !queryFails && r.value in table && r.value.id == id
      ensures r.Some? ==> exists k :: (0 <= k < |table| && table[k] == r.value &&
                                       forall j :: 0 <= j < k ==> table[j].id != id)
      ensures r.None? <==> queryFails || forall u :: u in table ==> u.id != id
    {
      FindById(table, id, queryFails)
    }

    /** `register_user_by_email`: check, then insert one row. */
    method RegisterUserByEmail(user: UserRegisterSchema, newId: string,
                               createdNow: Timestamp, updatedNow: Timestamp,
                               queryFails: bool, insertFails: bool)
      returns (r: Result<GenericResponse, RepoError>)
      modifies this
      ensures Registration(r, table) == Register(old(table), user, newId, createdNow, updatedNow, queryFails, insertFails)
    {
      if FindUserByEmail(user.email, queryFails).None? {
        var newUser := NewRow(user, createdNow, updatedNow);
        if insertFails {
          return Err(InsertFailed);
        }
        table := table + [Inserted(newUser, newId)];
        return Ok(OkResponse("registered new user with email: " + user.email));
      } else {
        return Err(InvalidData);
      }
    }
  }
}
