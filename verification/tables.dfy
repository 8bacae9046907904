/**
 * The two Postgres tables the server uses, held in memory in table order,
 * and the row-level effect of each statement the handlers issue.
 */
module Tables {
  import opened Js

  /** A row of `users`. */
  datatype User = User(id: nat, email: Value, passwordHash: string)

  /** A row of `snippets`. */
  datatype Snippet = Snippet(
    id: nat,
    userId: nat,
    title: Value,
    code: Value,
    language: Value,
    isPublic: bool,
    createdAt: int)

  /** The database: both tables plus the next values of their SERIAL id sequences. */
  datatype Db = Db(users: seq<User>, snippets: seq<Snippet>, nextUserId: nat, nextSnippetId: nat)

  /** The filter `WHERE id = $id AND user_id = $uid`. */
  predicate Matches(r: Snippet, id: nat, uid: nat) {
    r.id == id && r.userId == uid
  }

  /** Some row of `rows` passes the `id`/`user_id` filter. */
  predicate Owns(rows: seq<Snippet>, uid: nat, id: nat) {
    exists i :: 0 <= i < |rows| && Matches(rows[i], id, uid)
  }

  predicate EmailTaken(users: seq<User>, email: Value) {
    exists i :: 0 <= i < |users| && users[i].email == email
  }

  predicate UniqueSnippetIds(rows: seq<Snippet>) {
    forall i, j :: 0 <= i < |rows| && 0 <= j < |rows| && i != j ==> rows[i].id != rows[j].id
  }

  /**
   * The constraints the handlers maintain: user ids and emails are unique,
   * snippet ids are unique, and every id was drawn from its sequence.
   */
  ghost predicate Valid(db: Db) {
    && (forall i, j :: 0 <= i < |db.users| && 0 <= j < |db.users| && i != j ==>
          db.users[i].id != db.users[j].id && db.users[i].email != db.users[j].email)
    && (forall i :: 0 <= i < |db.users| ==> db.users[i].id < db.nextUserId)
    && UniqueSnippetIds(db.snippets)
    && (forall i :: 0 <= i < |db.snippets| ==> db.snippets[i].id < db.nextSnippetId)
  }

  /** `SELECT * FROM users WHERE email = $1`, first row. */
  function FindUser(users: seq<User>, email: Value): (r: Option<User>)
    ensures r.Some? <==> EmailTaken(users, email)
    ensures r.Some? ==> r.value in users && r.value.email == email
  {
    if |users| == 0 then None
    else if users[0].email == email then Some(users[0])
    else
      var rest := FindUser(users[1..], email);
      assert rest.Some? <==> EmailTaken(users[1..], email);
      assert EmailTaken(users, email) <==> EmailTaken(users[1..], email) by {
        if EmailTaken(users, email) {
          var i :| 0 <= i < |users| && users[i].email == email;
          assert users[1..][i - 1].email == email;
        }
        if EmailTaken(users[1..], email) {
          var i :| 0 <= i < |users[1..]| && users[1..][i].email == email;
          assert users[i + 1].email == email;
        }
      }
      rest
  }

  /** `SELECT * FROM snippets WHERE user_id = $1`, in table order. */
  function OwnedBy(rows: seq<Snippet>, uid: nat): (r: seq<Snippet>)
    ensures forall x :: x in r <==> x in rows && x.userId == uid
    ensures |r| <= |rows|
  {
    if |rows| == 0 then []
    else if rows[0].userId == uid then [rows[0]] + OwnedBy(rows[1..], uid)
    else OwnedBy(rows[1..], uid)
  }

  /** `Owns` unrolled one row. */
  lemma OwnsCons(rows: seq<Snippet>, uid: nat, id: nat)
    requires |rows| > 0
    ensures Owns(rows, uid, id) <==> Matches(rows[0], id, uid) || Owns(rows[1..], uid, id)
  {
  }

  /** `DELETE FROM snippets WHERE id = $1 AND user_id = $2`: the rows that remain. */
  function RemoveMatching(rows: seq<Snippet>, id: nat, uid: nat): (r: seq<Snippet>)
    ensures forall x :: x in r <==> x in rows && !Matches(x, id, uid)
    ensures |r| <= |rows|
    ensures |r| == |rows| <==> !Owns(rows, uid, id)
  {
    if |rows| == 0 then []
    else
      var rest := RemoveMatching(rows[1..], id, uid);
      OwnsCons(rows, uid, id);
      if Matches(rows[0], id, uid) then rest else [rows[0]] + rest
  }

  /** The assignments of an `UPDATE ... SET`; `isPublic` is None when the statement leaves that column alone. */
  datatype SetClause = SetClause(title: Value, code: Value, language: Value, isPublic: Option<bool>)

  /** A row after the SET: the assigned columns take their values, every other column keeps its own. */
  function Apply(r: Snippet, c: SetClause): (r': Snippet)
    ensures r'.id == r.id && r'.userId == r.userId && r'.createdAt == r.createdAt
    ensures r'.title == c.title && r'.code == c.code && r'.language == c.language
    ensures c.isPublic.None? ==> r'.isPublic == r.isPublic
    ensures c.isPublic.Some? ==> r'.isPublic == c.isPublic.value
  {
    r.(title := c.title, code := c.code, language := c.language,
       isPublic := if c.isPublic.Some? then c.isPublic.value else r.isPublic)
  }

  /** Running the same SET on a row twice gives the row after the first. */
  lemma ApplyIdempotent(r: Snippet, c: SetClause)
    ensures Apply(Apply(r, c), c) == Apply(r, c)
  {
  }

  /** The table after an UPDATE, and the rows its `RETURNING *` yields. */
  datatype UpdateResult = UpdateResult(rows: seq<Snippet>, returned: seq<Snippet>)

  /** `UPDATE snippets SET ... WHERE id = $id AND user_id = $uid RETURNING *`. */
  function RunUpdate(rows: seq<Snippet>, id: nat, uid: nat, c: SetClause): (u: UpdateResult)
    ensures |u.rows| == |rows|
    ensures forall i :: 0 <= i < |rows| ==>
      u.rows[i] == (if Matches(rows[i], id, uid) then Apply(rows[i], c) else rows[i])
    ensures |u.returned| > 0 <==> Owns(rows, uid, id)
    ensures forall x :: x in u.returned ==> x in u.rows && Matches(x, id, uid)
  {
    if |rows| == 0 then UpdateResult([], [])
    else
      var rest := RunUpdate(rows[1..], id, uid, c);
      OwnsCons(rows, uid, id);
      if Matches(rows[0], id, uid)
        then UpdateResult([Apply(rows[0], c)] + rest.rows, [Apply(rows[0], c)] + rest.returned)
        else UpdateResult([rows[0]] + rest.rows, rest.returned)
  }

  /** Non-increasing `created_at`: the order of `ORDER BY created_at DESC`. */
  predicate NewestFirst(rows: seq<Snippet>) {
    forall i, j :: 0 <= i < j < |rows| ==> rows[i].createdAt >= rows[j].createdAt
  }

  /** The first row of a newest-first sequence is at least as recent as every other. */
  lemma HeadIsNewest(rows: seq<Snippet>)
    requires NewestFirst(rows) && |rows| > 0
    ensures forall y :: y in rows[1..] ==> y.createdAt <= rows[0].createdAt
  {
  }

  lemma ConsNewestFirst(h: Snippet, rest: seq<Snippet>)
    requires NewestFirst(rest)
    requires forall y :: y in rest ==> y.createdAt <= h.createdAt
    ensures NewestFirst([h] + rest)
  {
  }

  lemma PrependNewest(x: Snippet, rows: seq<Snippet>)
    requires NewestFirst(rows)
    requires |rows| == 0 || x.createdAt >= rows[0].createdAt
    ensures NewestFirst([x] + rows)
  {
  }

  function InsertByCreated(x: Snippet, rows: seq<Snippet>): (r: seq<Snippet>)
    requires NewestFirst(rows)
    ensures NewestFirst(r)
    ensures multiset(r) == multiset(rows) + multiset{x}
  {
    if |rows| == 0 || x.createdAt >= rows[0].createdAt then
      PrependNewest(x, rows);
      [x] + rows
    else
      var rest := InsertByCreated(x, rows[1..]);
      assert rows == [rows[0]] + rows[1..];
      HeadIsNewest(rows);
      assert forall y :: y in rest ==> y.createdAt <= rows[0].createdAt by {
        forall y | y in rest ensures y.createdAt <= rows[0].createdAt {
          assert y in multiset(rest);
          assert y == x || y in multiset(rows[1..]);
        }
      }
      ConsNewestFirst(rows[0], rest);
      [rows[0]] + rest
  }

  /** An ordering of `rows` by `created_at DESC`; rows with equal timestamps come in some order. */
  function SortNewestFirst(rows: seq<Snippet>): (r: seq<Snippet>)
    ensures NewestFirst(r)
    ensures multiset(r) == multiset(rows)
  {
    if |rows| == 0 then []
    else
      assert rows == [rows[0]] + rows[1..];
      InsertByCreated(rows[0], SortNewestFirst(rows[1..]))
  }
}
