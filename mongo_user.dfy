/** The Mongo back end (src/db/mongo/user.rs): a collection of `User`
    documents, searched by one field and extended by registration. Driver
    failures are parameters: `queryFails` for the query, `advanceFails` for
    the cursor step, `insertFails` for `insert_one`. */
module MongoUser {
  import opened Wrappers
  import opened Text
  import opened Seqs
  import opened Models
  import opened Response

  datatype Registration = Registration(result: Result<GenericResponse, RepoError>, documents: seq<User>)

  /** The string value a document holds under a field name, taking the
      document's keys to be the field names of `User`; a name the document
      does not carry, or a non-string field, holds none. */
  function FieldValue(u: User, fieldName: string): (v: Option<string>)
    ensures fieldName == "email" ==> v == Some(u.email)
    ensures fieldName == "id" ==> v == u.id
  {
    match fieldName
    case "id" => u.id
    case "email" => Some(u.email)
    case "name" => Some(u.name)
    case "password" => Some(u.password)
    case "otp_base32" => u.otpBase32
    case "otp_auth_url" => u.otpAuthUrl
    case _ => None
  }

  predicate Matches(u: User, fieldName: string, value: string) {
    FieldValue(u, fieldName) == Some(value)
  }

  /** The first document of the query `{fieldName: value}`. A failed query
      or cursor step gives `None`; so, by assumption, does an empty result. */
  function Find(docs: seq<User>, fieldName: string, value: string, queryFails: bool, advanceFails: bool): (r: Option<User>)
    ensures r.Some? ==> !queryFails && !advanceFails && r.value in docs && Matches(r.value, fieldName, value)
    ensures r.Some? ==> exists k :: (0 <= k < |docs| && docs[k] == r.value &&
                                     forall j :: 0 <= j < k ==> !Matches(docs[j], fieldName, value))
    ensures r.None? <==> queryFails || advanceFails || forall d :: d in docs ==> !Matches(d, fieldName, value)
  {
    if queryFails || advanceFails then None
    else FindWhere(docs, (u: User) => Matches(u, fieldName, value))
  }

  /** `register_user_by_email` on a collection. The duplicate check searches
      `"email"` with the address as sent, while the stored address is lower
      case; a failed check reads as "no duplicate". */
  function Register(docs: seq<User>, req: UserRegisterSchema, uuid: string, now: Timestamp,
                    queryFails: bool, advanceFails: bool, insertFails: bool): (r: Registration)
    ensures r.result.Err? <==> Find(docs, "email", req.email, queryFails, advanceFails).Some? || insertFails
    ensures r.result.Err? ==> r.documents == docs
    ensures r.result.Err? && Find(docs, "email", req.email, queryFails, advanceFails).Some? ==>
      r.result.error == InvalidData
    ensures r.result.Ok? ==>
      r.documents == docs + [NewUserDocument(req, uuid, now)] &&
      r.result.value == OkResponse("registered new user with email: " + ToLower(req.email))
  {
    if Find(docs, "email", req.email, queryFails, advanceFails).None? then
      var user := NewUserDocument(req, uuid, now);
      if insertFails then Registration(Err(InsertFailed), docs)
      else Registration(Ok(OkResponse("registered new user with email: " + user.email)), docs + [user])
    else Registration(Err(InvalidData), docs)
  }

  /** For a request whose address is already lower case, and a duplicate
      check that ran, registration keeps stored addresses lower case and
      distinct. */
  lemma LowercaseRequestKeepsEmailsUnique(docs: seq<User>, req: UserRegisterSchema, uuid: string,
                                         now: Timestamp, insertFails: bool)
    requires EmailsDistinct(docs) && EmailsLower(docs)
    requires IsLower(req.email)
    ensures var after := Register(docs, req, uuid, now, false, false, insertFails).documents;
      EmailsDistinct(after) && EmailsLower(after)
  {
    var r := Register(docs, req, uuid, now, false, false, insertFails);
    if r.result.Ok? {
      ToLowerOfLower(req.email);
      forall i | 0 <= i < |docs|
        ensures docs[i].email != req.email
      {
        assert !Matches(docs[i], "email", req.email);
      }
    }
  }

  /** Registering "a@x" and then "A@x" stores two documents with the same
      address: the second check searches for "A@x" and finds nothing. */
  lemma MixedCaseRegistersTwice(uuid1: string, uuid2: string, now: Timestamp)
    ensures var first := Register([], UserRegisterSchema("Ann", "a@x", "p"), uuid1, now, false, false, false);
      var second := Register(first.documents, UserRegisterSchema("Ann", "A@x", "p"), uuid2, now, false, false, false);
      second.result.Ok? && |second.documents| == 2 &&
      second.documents[0].email == "a@x" && second.documents[1].email == "a@x" &&
      !EmailsDistinct(second.documents)
  {
    var first := Register([], UserRegisterSchema("Ann", "a@x", "p"), uuid1, now, false, false, false);
    assert first.documents == [NewUserDocument(UserRegisterSchema("Ann", "a@x", "p"), uuid1, now)];
    assert ToLower("a@x") == "a@x";
    assert ToLower("A@x") == "a@x" by {
      assert LowerChar('A') == 'a';
    }
    assert !Matches(first.documents[0], "email", "A@x");
  }

  /** When the duplicate check itself fails, an address already stored is
      inserted a second time. */
  lemma FailedCheckAdmitsDuplicate(docs: seq<User>, req: UserRegisterSchema, uuid: string, now: Timestamp)
    requires IsLower(req.email)
    requires exists i :: 0 <= i < |docs| && docs[i].email == req.email
    ensures var r := Register(docs, req, uuid, now, true, false, false);
      r.result.Ok? && !EmailsDistinct(r.documents)
  {
    var i :| 0 <= i < |docs| && docs[i].email == req.email;
    var r := Register(docs, req, uuid, now, true, false, false);
    ToLowerOfLower(req.email);
    assert r.documents[i].email == r.documents[|docs|].email;
  }

  /** The OTP handlers search the field "user_id"; a document with the keys
      of `User` carries no such key, so that search finds nothing. */
  lemma UserIdFieldFindsNothing(docs: seq<User>, userId: string, queryFails: bool, advanceFails: bool)
    ensures Find(docs, "user_id", userId, queryFails, advanceFails).None?
  {
  }

  /** The Mongo repository (`UserRepo`); the client's collection is the
      sequence of its documents. */
  class UserRepo {
    var collection: seq<User>

    constructor Init(documents: seq<User>)
      ensures collection == documents
    {
      collection := documents;
    }

    /** `find_user_by_custom_field`. */
    function FindUserByCustomField(fieldName: string, field: string, queryFails: bool, advanceFails: bool): (r: Option<User>)
      reads this
      ensures r.Some? ==> !queryFails && !advanceFails && r.value in collection && Matches(r.value, fieldName, field)
      ensures r.Some? ==> exists k :: (0 <= k < |collection| && collection[k] == r.value &&
                                       forall j :: 0 <= j < k ==> !Matches(collection[j], fieldName, field))
      ensures r.None? <==> queryFails || advanceFails || forall d :: d in collection ==> !Matches(d, fieldName, field)
    {
      Find(collection, fieldName, field, queryFails, advanceFails)
    }

    /** `register_user_by_email`: check, then insert one document. */
    method RegisterUserByEmail(reqBody: UserRegisterSchema, uuid: string, now: Timestamp,
                               queryFails: bool, advanceFails: bool, insertFails: bool)
      returns (r: Result<GenericResponse, RepoError>)
      modifies this
      ensures Registration(r, collection) == Register(old(collection), reqBody, uuid, now, queryFails, advanceFails, insertFails)
    {
      if FindUserByCustomField("email", reqBody.email, queryFails, advanceFails).None? {
        var user := NewUserDocument(reqBody, uuid, now);
        if insertFails {
          return Err(InsertFailed);
        }
        collection := collection + [user];
        return Ok(OkResponse("registered new user with email: " + user.email));
      } else {
        return Err(InvalidData);
      }
    }
  }
}
