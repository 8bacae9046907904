/**
 * The REST handlers of the API server, each a pure transition from the
 * database and one request to a response and the next database.
 */
module Server {
  import opened Js
  import opened Crypto
  import opened Tables
  import opened Http
  import Auth

  /**
   * What a request sees of the world outside the database: the crypto
   * libraries, the salt `bcrypt.genSalt(10)` draws, and the time `created_at`
   * defaults to.
   */
  datatype Env = Env(crypto: Crypto, salt: string, now: int)

  /** The body fields the snippet routes read. */
  datatype SnippetFields = SnippetFields(title: Value, code: Value, language: Value, isPublic: Value)

  datatype Request =
    | Register(email: Value, password: Value)
    | Login(email: Value, password: Value)
    | CreateSnippet(headers: Headers, fields: SnippetFields)
    | ListSnippets(headers: Headers)
    | UpdateSnippet(headers: Headers, id: nat, fields: SnippetFields)
    | DeleteSnippet(headers: Headers, id: nat)

  datatype Outcome = Outcome(response: Response, db: Db)

  /** `POST /api/users/register`. */
  function RegisterUser(db: Db, env: Env, email: Value, password: Value): (o: Outcome)
    ensures o.db.snippets == db.snippets
    ensures !Truthy(email) || !Truthy(password) ==>
      o == Outcome(BadRequest("Please enter all fields"), db)
    ensures Truthy(email) && Truthy(password) && EmailTaken(db.users, email) ==>
      o == Outcome(BadRequest("User already exists"), db)
    // bcrypt.hash rejects a password that is not a string
    ensures Truthy(email) && Truthy(password) && !EmailTaken(db.users, email) && !password.Str? ==>
      o == Outcome(ServerError, db)
    ensures o.response.status == 201 <==>
      Truthy(email) && Truthy(password) && password.Str? && !EmailTaken(db.users, email)
    ensures o.response.status == 201 ==>
      && |o.db.users| == |db.users| + 1
      && o.db.users[..|db.users|] == db.users
      && var u := o.db.users[|db.users|];
         && u.email == email
         && u.id == db.nextUserId
         && u.passwordHash == env.crypto.hash(password.s, env.salt)
         && o.response.body == NewUser(u.id, email)
         && o.db.nextUserId > u.id
  {
    if !Truthy(email) || !Truthy(password) then
      Outcome(BadRequest("Please enter all fields"), db)
    else if FindUser(db.users, email).Some? then
      Outcome(BadRequest("User already exists"), db)
    else if !password.Str? then
      Outcome(ServerError, db)
    else
      var u := User(db.nextUserId, email, env.crypto.hash(password.s, env.salt));
      Outcome(Response(201, NewUser(u.id, u.email)),
              db.(users := db.users + [u], nextUserId := db.nextUserId + 1))
  }

  /** `POST /api/users/login`. */
  function LoginUser(db: Db, env: Env, email: Value, password: Value): (o: Outcome)
    ensures o.db == db
    ensures !Truthy(email) || !Truthy(password) ==> o.response == BadRequest("Please enter all fields")
    ensures o.response.status == 200 <==>
      && Truthy(email) && Truthy(password) && password.Str?
      && match FindUser(db.users, email)
         case None => false
         case Some(u) => env.crypto.compare(password.s, u.passwordHash)
    ensures o.response.status == 200 ==>
      && EmailTaken(db.users, email)
      && var u := FindUser(db.users, email).value;
         && u in db.users && u.email == email
         && o.response.body == TokenBody(env.crypto.sign(Payload(Principal(u.id))))
    // an unknown email and a wrong password produce the same answer
    ensures Truthy(email) && Truthy(password) && !EmailTaken(db.users, email) ==>
      o.response == BadRequest("Invalid credentials")
    ensures Truthy(email) && Truthy(password) && password.Str? && o.response.status != 200 ==>
      o.response == BadRequest("Invalid credentials")
    // bcrypt.compare rejects a password that is not a string
    ensures Truthy(email) && Truthy(password) && EmailTaken(db.users, email) && !password.Str? ==>
      o.response == ServerError
  {
    if !Truthy(email) || !Truthy(password) then
      Outcome(BadRequest("Please enter all fields"), db)
    else
      match FindUser(db.users, email)
      case None => Outcome(BadRequest("Invalid credentials"), db)
      case Some(found) =>
        if !password.Str? then
          Outcome(ServerError, db)
        else if !env.crypto.compare(password.s, found.passwordHash) then
          Outcome(BadRequest("Invalid credentials"), db)
        else
          var payload := Payload(Principal(found.id));
          Outcome(Response(200, TokenBody(env.crypto.sign(payload))), db)
  }

  /** `POST /api/snippets` on behalf of the authenticated `caller`. */
  function CreateSnippetFor(db: Db, env: Env, caller: nat, f: SnippetFields): (o: Outcome)
    ensures o.db.users == db.users
    ensures !Truthy(f.title) || !Truthy(f.code) ==>
      o == Outcome(BadRequest("Please enter a title and code."), db)
    ensures o.response.status == 201 <==> Truthy(f.title) && Truthy(f.code)
    ensures o.response.status == 201 ==>
      && o.response.body.Row?
      && var row := o.response.body.row;
         && o.db.snippets == db.snippets + [row]
         && row.id == db.nextSnippetId && o.db.nextSnippetId > row.id
         && row.userId == caller
         && row.title == f.title && row.code == f.code && row.language == ToParam(f.language)
         && (row.isPublic <==> f.isPublic == Bool(true) || f.isPublic == Str("true"))
         && row.createdAt == env.now
  {
    if !Truthy(f.title) || !Truthy(f.code) then
      Outcome(BadRequest("Please enter a title and code."), db)
    else
      var publicStatus := PublicFlag(f.isPublic);
      var row := Snippet(db.nextSnippetId, caller, f.title, f.code, ToParam(f.language), publicStatus, env.now);
      Outcome(Response(201, Row(row)),
              db.(snippets := db.snippets + [row], nextSnippetId := db.nextSnippetId + 1))
  }

  /** `GET /api/snippets` on behalf of `caller`. */
  function ListSnippetsFor(db: Db, caller: nat): (o: Outcome)
    ensures o.db == db
    ensures o.response.status == 200 && o.response.body.Rows?
    ensures NewestFirst(o.response.body.rows)
    ensures multiset(o.response.body.rows) == multiset(OwnedBy(db.snippets, caller))
    ensures forall x :: x in o.response.body.rows <==> x in db.snippets && x.userId == caller
  {
    var rows := SortNewestFirst(OwnedBy(db.snippets, caller));
    assert forall x :: x in rows <==> x in multiset(rows);
    Outcome(Response(200, Rows(rows)), db)
  }

  /**
   * The SET clause an update request asks for: title, code and language take
   * the request's values (a missing one is stored as NULL), and `is_public`
   * is set only when the request carries it.
   */
  function Requested(f: SnippetFields): (c: SetClause)
    ensures c.title == ToParam(f.title) && c.code == ToParam(f.code) && c.language == ToParam(f.language)
    ensures c.isPublic.Some? <==> f.isPublic != Undefined
    ensures f.isPublic != Undefined ==> c.isPublic == Some(PublicFlag(f.isPublic))
  {
    SetClause(ToParam(f.title), ToParam(f.code), ToParam(f.language),
              if f.isPublic == Undefined then None else Some(PublicFlag(f.isPublic)))
  }

  /** `after` is `before` with every row passing the `id`/`user_id` filter revised, and no other change. */
  predicate RevisedTable(after: seq<Snippet>, before: seq<Snippet>, id: nat, caller: nat, f: SnippetFields) {
    && |after| == |before|
    && forall j :: 0 <= j < |before| ==>
         after[j] == (if Matches(before[j], id, caller) then Apply(before[j], Requested(f)) else before[j])
  }

  /** `PUT /api/snippets/:id` on behalf of `caller`, including the retry without `is_public`. */
  function UpdateSnippetFor(db: Db, caller: nat, id: nat, f: SnippetFields): (o: Outcome)
    ensures o.db.users == db.users && o.db.nextUserId == db.nextUserId && o.db.nextSnippetId == db.nextSnippetId
    ensures !Owns(db.snippets, caller, id) ==> o == Outcome(NotFound, db)
    ensures Owns(db.snippets, caller, id) ==>
      && o.response.status == 200
      && o.response.body.Row?
      && RevisedTable(o.db.snippets, db.snippets, id, caller, f)
      && exists i :: 0 <= i < |db.snippets| && Matches(db.snippets[i], id, caller)
                     && o.response.body.row == Apply(db.snippets[i], Requested(f))
  {
    var withoutFlag := Requested(f).(isPublic := None);
    var first := RunUpdate(db.snippets, id, caller, Requested(f));
    var result :=
      if |first.returned| == 0 && f.isPublic != Undefined then RunUpdate(first.rows, id, caller, withoutFlag)
      else first;
    if |result.returned| == 0 then
      Outcome(NotFound, db)
    else
      assert result == first;
      var row := result.returned[0];
      assert row in result.rows && Matches(row, id, caller);
      var j :| 0 <= j < |result.rows| && result.rows[j] == row;
      assert Matches(db.snippets[j], id, caller) && row == Apply(db.snippets[j], Requested(f));
      Outcome(Response(200, Row(result.returned[0])), db.(snippets := result.rows))
  }

  /** `DELETE /api/snippets/:id` on behalf of `caller`. */
  function DeleteSnippetFor(db: Db, caller: nat, id: nat): (o: Outcome)
    ensures o.db.users == db.users && o.db.nextUserId == db.nextUserId && o.db.nextSnippetId == db.nextSnippetId
    ensures !Owns(db.snippets, caller, id) ==> o == Outcome(NotFound, db)
    ensures Owns(db.snippets, caller, id) ==>
      && o.response == Response(200, Msg("Snippet deleted"))
      && |o.db.snippets| < |db.snippets|
      && forall x :: x in o.db.snippets <==> x in db.snippets && !Matches(x, id, caller)
  {
    var remaining := RemoveMatching(db.snippets, id, caller);
    var rowCount := |db.snippets| - |remaining|;
    if rowCount == 0 then Outcome(NotFound, db)
    else Outcome(Response(200, Msg("Snippet deleted")), db.(snippets := remaining))
  }

  /** The user an authenticated request acts for, when the guard lets it through. */
  function Caller(env: Env, req: Request): Option<nat> {
    if req.Register? || req.Login? then None
    else
      var g := Auth.Guard(req.headers, env.crypto.verify);
      if g.nextCalled then Some(g.reqUser.value.id) else None
  }

  /** The whole server: each route, with the guard in front of the snippet routes. */
  function Handle(db: Db, env: Env, req: Request): (o: Outcome)
    // a request the guard turns away answers 401 and changes nothing
    ensures !req.Register? && !req.Login? && Caller(env, req).None? ==>
      o.response.status == 401 && o.db == db
    ensures req.Login? || req.ListSnippets? ==> o.db == db
  {
    match req
    case Register(email, password) => RegisterUser(db, env, email, password)
    case Login(email, password) => LoginUser(db, env, email, password)
    case _ =>
      var g := Auth.Guard(req.headers, env.crypto.verify);
      if !g.nextCalled then Outcome(g.sent.value, db)
      else
        var caller := g.reqUser.value.id;
        match req
        case CreateSnippet(_, f) => CreateSnippetFor(db, env, caller, f)
        case ListSnippets(_) => ListSnippetsFor(db, caller)
        case UpdateSnippet(_, id, f) => UpdateSnippetFor(db, caller, id, f)
        case DeleteSnippet(_, id) => DeleteSnippetFor(db, caller, id)
  }
}
