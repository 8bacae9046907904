/**
 * Properties that relate several handler calls, or a handler and the
 * schema's constraints: the database stays well formed, one user's requests
 * never touch another user's rows, and the login token opens the guard.
 */
module ServerProperties {
  import opened Js
  import opened Crypto
  import opened Tables
  import opened Http
  import Auth
  import opened Server

  // ---------------------------------------------------------------------------
  // Row-level facts

  lemma {:induction false} RemoveMatchingKeepsIdsUnique(rows: seq<Snippet>, id: nat, uid: nat)
    requires UniqueSnippetIds(rows)
    ensures UniqueSnippetIds(RemoveMatching(rows, id, uid))
  {
    if |rows| > 0 {
      var tail := rows[1..];
      assert UniqueSnippetIds(tail) by {
        forall i, j | 0 <= i < |tail| && 0 <= j < |tail| && i != j ensures tail[i].id != tail[j].id {
          assert tail[i] == rows[i + 1] && tail[j] == rows[j + 1];
        }
      }
      RemoveMatchingKeepsIdsUnique(tail, id, uid);
      var rest := RemoveMatching(tail, id, uid);
      if !Matches(rows[0], id, uid) {
        var r := [rows[0]] + rest;
        forall k | 0 <= k < |rest| ensures rest[k].id != rows[0].id {
          assert rest[k] in tail;
          var m :| 0 <= m < |tail| && tail[m] == rest[k];
          assert rows[m + 1] == rest[k];
        }
        forall i, j | 0 <= i < |r| && 0 <= j < |r| && i != j ensures r[i].id != r[j].id {
          if i > 0 && j > 0 {
            assert r[i] == rest[i - 1] && r[j] == rest[j - 1];
          } else if i == 0 {
            assert r[j] == rest[j - 1];
          } else {
            assert r[i] == rest[i - 1];
          }
        }
      }
    }
  }

  /** Two tables that differ only in rows not owned by `u` give `u` the same rows. */
  lemma {:induction false} OwnedBySameWhereOwned(a: seq<Snippet>, b: seq<Snippet>, u: nat)
    requires |a| == |b|
    requires forall i :: 0 <= i < |a| ==> a[i] == b[i] || (a[i].userId != u && b[i].userId != u)
    ensures OwnedBy(a, u) == OwnedBy(b, u)
  {
    if |a| > 0 {
      OwnedBySameWhereOwned(a[1..], b[1..], u);
    }
  }

  lemma {:induction false} OwnedByRemoveOther(rows: seq<Snippet>, id: nat, caller: nat, other: nat)
    requires other != caller
    ensures OwnedBy(RemoveMatching(rows, id, caller), other) == OwnedBy(rows, other)
  {
    if |rows| > 0 {
      OwnedByRemoveOther(rows[1..], id, caller, other);
      if !Matches(rows[0], id, caller) {
        var rest := RemoveMatching(rows[1..], id, caller);
        assert ([rows[0]] + rest)[1..] == rest;
      }
    }
  }

  lemma {:induction false} OwnedByAppendOther(rows: seq<Snippet>, r: Snippet, u: nat)
    requires r.userId != u
    ensures OwnedBy(rows + [r], u) == OwnedBy(rows, u)
  {
    if |rows| > 0 {
      OwnedByAppendOther(rows[1..], r, u);
      assert (rows + [r])[1..] == rows[1..] + [r];
    }
  }

  // ---------------------------------------------------------------------------
  // The schema's constraints hold after every request

  lemma RegisterPreservesValid(db: Db, env: Env, email: Value, password: Value)
    requires Valid(db)
    ensures Valid(RegisterUser(db, env, email, password).db)
  {
  }

  lemma CreatePreservesValid(db: Db, env: Env, caller: nat, f: SnippetFields)
    requires Valid(db)
    ensures Valid(CreateSnippetFor(db, env, caller, f).db)
  {
  }

  lemma UpdatePreservesValid(db: Db, caller: nat, id: nat, f: SnippetFields)
    requires Valid(db)
    ensures Valid(UpdateSnippetFor(db, caller, id, f).db)
  {
  }

  lemma DeletePreservesValid(db: Db, caller: nat, id: nat)
    requires Valid(db)
    ensures Valid(DeleteSnippetFor(db, caller, id).db)
  {
    var o := DeleteSnippetFor(db, caller, id);
    RemoveMatchingKeepsIdsUnique(db.snippets, id, caller);
    forall i | 0 <= i < |o.db.snippets| ensures o.db.snippets[i].id < o.db.nextSnippetId {
      assert o.db.snippets[i] in db.snippets;
    }
  }

  /** Every request keeps the schema's constraints: in particular emails stay unique. */
  lemma HandlePreservesValid(db: Db, env: Env, req: Request)
    requires Valid(db)
    ensures Valid(Handle(db, env, req).db)
  {
    match req
    case Register(email, password) => RegisterPreservesValid(db, env, email, password);
    case Login(_, _) =>
    case _ =>
      var g := Auth.Guard(req.headers, env.crypto.verify);
      if g.nextCalled {
        var caller := g.reqUser.value.id;
        match req
        case CreateSnippet(_, f) => CreatePreservesValid(db, env, caller, f);
        case ListSnippets(_) =>
        case UpdateSnippet(_, id, f) => UpdatePreservesValid(db, caller, id, f);
        case DeleteSnippet(_, id) => DeletePreservesValid(db, caller, id);
      }
  }

  // ---------------------------------------------------------------------------
  // Ownership

  /**
   * Whatever a request does, the rows of a user it does not act for are
   * exactly as before: every write is scoped to the authenticated caller.
   */
  lemma OtherUsersRowsUntouched(db: Db, env: Env, req: Request, other: nat)
    requires Caller(env, req) != Some(other)
    ensures OwnedBy(Handle(db, env, req).db.snippets, other) == OwnedBy(db.snippets, other)
  {
    var o := Handle(db, env, req);
    if !req.Register? && !req.Login? && Caller(env, req).Some? {
      var caller := Caller(env, req).value;
      match req
      case CreateSnippet(_, f) =>
        if o.response.status == 201 {
          OwnedByAppendOther(db.snippets, o.response.body.row, other);
        }
      case ListSnippets(_) =>
      case UpdateSnippet(_, id, f) =>
        if Owns(db.snippets, caller, id) {
          OwnedBySameWhereOwned(o.db.snippets, db.snippets, other);
        }
      case DeleteSnippet(_, id) =>
        OwnedByRemoveOther(db.snippets, id, caller, other);
    }
  }

  /** A row owned by someone else cannot be updated or deleted: the caller gets 404 and nothing changes. */
  lemma ForeignRowIsNotFound(db: Db, caller: nat, k: nat, f: SnippetFields)
    requires Valid(db)
    requires k < |db.snippets| && db.snippets[k].userId != caller
    ensures UpdateSnippetFor(db, caller, db.snippets[k].id, f) == Outcome(NotFound, db)
    ensures DeleteSnippetFor(db, caller, db.snippets[k].id) == Outcome(NotFound, db)
  {
  }

  /**
   * The retry without `is_public` uses the same `id`/`user_id` filter as the
   * first statement, so it can never turn a 404 into a success.
   */
  lemma RetryCannotRescue(db: Db, caller: nat, id: nat, f: SnippetFields)
    requires f.isPublic != Undefined
    ensures var first := RunUpdate(db.snippets, id, caller, Requested(f));
            |first.returned| == 0 ==>
              |RunUpdate(first.rows, id, caller, Requested(f).(isPublic := None)).returned| == 0
  {
  }

  // ---------------------------------------------------------------------------
  // Create, list, update, delete in sequence

  /** A snippet just created shows up in its owner's list. */
  lemma CreatedSnippetIsListed(db: Db, env: Env, caller: nat, f: SnippetFields)
    requires Truthy(f.title) && Truthy(f.code)
    ensures var o := CreateSnippetFor(db, env, caller, f);
            o.response.body.Row? && o.response.body.row in ListSnippetsFor(o.db, caller).response.body.rows
  {
  }

  /** After a successful update, the row the response carries is what the caller's list now shows. */
  lemma UpdatedSnippetIsListed(db: Db, caller: nat, id: nat, f: SnippetFields)
    requires Owns(db.snippets, caller, id)
    ensures var o := UpdateSnippetFor(db, caller, id, f);
            o.response.body.Row? && o.response.body.row in ListSnippetsFor(o.db, caller).response.body.rows
  {
    var o := UpdateSnippetFor(db, caller, id, f);
    var i :| 0 <= i < |db.snippets| && Matches(db.snippets[i], id, caller)
             && o.response.body.row == Apply(db.snippets[i], Requested(f));
    assert o.db.snippets[i] == o.response.body.row;
  }

  /** After a successful delete, the caller's list holds no row with that id. */
  lemma DeletedSnippetIsNotListed(db: Db, caller: nat, id: nat)
    ensures var o := DeleteSnippetFor(db, caller, id);
            forall x :: x in ListSnippetsFor(o.db, caller).response.body.rows ==> x.id != id
  {
  }

  /** Deleting twice: the second call finds nothing, answers 404 and changes nothing. */
  lemma DeleteTwice(db: Db, caller: nat, id: nat)
    ensures var o := DeleteSnippetFor(db, caller, id);
            DeleteSnippetFor(o.db, caller, id) == Outcome(NotFound, o.db)
  {
  }

  /** Sending the same update twice leaves the table as one send does. */
  lemma UpdateIdempotent(db: Db, caller: nat, id: nat, f: SnippetFields)
    ensures var o := UpdateSnippetFor(db, caller, id, f);
            UpdateSnippetFor(o.db, caller, id, f).db == o.db
  {
  }

  // ---------------------------------------------------------------------------
  // Registration, login and the guard

  lemma {:induction false} FindUserAppended(users: seq<User>, u: User, email: Value)
    requires !EmailTaken(users, email) && u.email == email
    ensures FindUser(users + [u], email) == Some(u)
  {
    if |users| > 0 {
      forall i | 0 <= i < |users[1..]| ensures users[1..][i].email != email {
        assert users[1..][i] == users[i + 1];
      }
      assert users[0].email != email;
      FindUserAppended(users[1..], u, email);
      assert (users + [u])[1..] == users[1..] + [u];
    }
  }

  /**
   * Registering and then logging in with the same credentials succeeds, and
   * the token returned gets through the guard as the new user.
   */
  lemma RegisterThenLogin(db: Db, env: Env, env': Env, email: Value, password: Value)
    requires Sound(env.crypto) && env'.crypto == env.crypto
    requires RegisterUser(db, env, email, password).response.status == 201
    ensures var r := RegisterUser(db, env, email, password);
            var l := LoginUser(r.db, env', email, password);
            && l.response.status == 200
            && l.response.body.TokenBody?
            && var g := Auth.Guard(map[Auth.TokenHeader := l.response.body.token], env.crypto.verify);
               g.nextCalled && g.reqUser == Some(Principal(r.response.body.id))
  {
    var r := RegisterUser(db, env, email, password);
    var u := r.db.users[|db.users|];
    assert r.db.users == db.users + [u];
    FindUserAppended(db.users, u, email);
    Auth.AcceptsSignedToken(env.crypto, Payload(Principal(u.id)));
  }

  /** The token of a successful login names exactly the user found by email, and the guard yields that id. */
  lemma LoginTokenNamesUser(db: Db, env: Env, email: Value, password: Value)
    requires Sound(env.crypto)
    requires LoginUser(db, env, email, password).response.status == 200
    ensures var l := LoginUser(db, env, email, password);
            var u := FindUser(db.users, email).value;
            && env.crypto.verify(l.response.body.token) == Some(Payload(Principal(u.id)))
            && Auth.Guard(map[Auth.TokenHeader := l.response.body.token], env.crypto.verify).reqUser == Some(Principal(u.id))
  {
  }

  /** An unknown email and a known email with a wrong (string) password produce identical outcomes. */
  lemma LoginFailuresLookAlike(db: Db, env: Env, unknown: Value, known: Value, password: Value, wrong: Value)
    requires Truthy(unknown) && Truthy(known) && Truthy(password) && Truthy(wrong)
    requires wrong.Str?
    requires !EmailTaken(db.users, unknown)
    requires EmailTaken(db.users, known)
    requires !env.crypto.compare(wrong.s, FindUser(db.users, known).value.passwordHash)
    ensures LoginUser(db, env, unknown, password) == LoginUser(db, env, known, wrong)
  {
  }

  /**
   * A password that is not a string is answered 400 for an unknown email but
   * 500 for a registered one: only string passwords get the uniform answer.
   */
  lemma NonStringPasswordTellsAccountsApart(db: Db, env: Env, unknown: Value, known: Value, password: Value)
    requires Truthy(unknown) && Truthy(known) && Truthy(password) && !password.Str?
    requires !EmailTaken(db.users, unknown)
    requires EmailTaken(db.users, known)
    ensures LoginUser(db, env, unknown, password).response == BadRequest("Invalid credentials")
    ensures LoginUser(db, env, known, password).response == ServerError
  {
  }

  /** Once an email has registered, registering it again is refused and adds no user. */
  lemma EmailRegisteredOnce(db: Db, env: Env, env': Env, email: Value, p1: Value, p2: Value)
    requires RegisterUser(db, env, email, p1).response.status == 201
    requires Truthy(p2)
    ensures var r := RegisterUser(db, env, email, p1);
            RegisterUser(r.db, env', email, p2) == Outcome(BadRequest("User already exists"), r.db)
  {
  }
}
