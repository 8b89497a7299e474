/**
 * The user repository: the `users` table as an in-memory store of rows,
 * looked up by email, with inserts and single-field updates in place.
 */
module UserRepository {
  import opened Wrappers

  /** A row of the `users` table. */
  datatype User = User(
    id: int,
    username: string,
    email: string,
    password: string,
    avatar: Option<string>,
    refreshToken: Option<string>,
    confirmed: bool)

  /** The sign-up body: the fields a new user is created with. */
  datatype UserInput = UserInput(username: string, email: string, password: string)

  /** The table's primary key: no two rows share an id. */
  ghost predicate UniqueIds(users: seq<User>) {
    forall i, j :: 0 <= i < j < |users| ==> users[i].id != users[j].id
  }

  /** The position of the first row that satisfies `p`, if any (a query's `.first()`). */
  function FirstIndex(users: seq<User>, p: User -> bool): (r: Option<nat>)
    ensures r.None? <==> forall i :: 0 <= i < |users| ==> !p(users[i])
    ensures r.Some? ==> r.value < |users| && p(users[r.value])
    ensures r.Some? ==> forall j :: 0 <= j < r.value ==> !p(users[j])
  {
    if users == [] then None
    else if p(users[0]) then Some(0)
    else match FirstIndex(users[1..], p)
      case None => None
      case Some(i) => Some(i + 1)
  }

  /** Two stores whose rows satisfy `p` at the same positions have the same first match. */
  lemma FirstIndexSamePattern(xs: seq<User>, ys: seq<User>, p: User -> bool)
    requires |xs| == |ys|
    requires forall j :: 0 <= j < |xs| ==> p(xs[j]) == p(ys[j])
    ensures FirstIndex(xs, p) == FirstIndex(ys, p)
  {
  }

  /** Appending a row leaves an earlier first match in place; otherwise the new row is the match if it satisfies `p`. */
  lemma {:induction false} FirstIndexAppend(users: seq<User>, v: User, p: User -> bool)
    ensures FirstIndex(users + [v], p) ==
              if FirstIndex(users, p).Some? then FirstIndex(users, p)
              else if p(v) then Some(|users|)
              else None
  {
    if users != [] {
      assert (users + [v])[1..] == users[1..] + [v];
      FirstIndexAppend(users[1..], v, p);
    }
  }

  function EmailIndex(users: seq<User>, email: string): Option<nat> {
    FirstIndex(users, (x: User) => x.email == email)
  }

  /**
   * `get_user_by_email`: the first user with that email, or `None` when no
   * user has it.
   */
  function GetUserByEmail(users: seq<User>, email: string): (r: Option<User>)
    ensures r.None? <==> forall x :: x in users ==> x.email != email
    ensures r.Some? ==> exists i :: 0 <= i < |users| && users[i] == r.value
                                    && forall j :: 0 <= j < i ==> users[j].email != email
    ensures r.Some? ==> r.value in users && r.value.email == email
  {
    match EmailIndex(users, email)
    case None => None
    case Some(i) => Some(users[i])
  }

  /**
   * After an insert, a lookup of the new email finds the new user unless an
   * earlier user already had that email; lookups of other emails are as before.
   */
  lemma InsertedUserLookup(users: seq<User>, v: User)
    ensures GetUserByEmail(users + [v], v.email) ==
              if GetUserByEmail(users, v.email).Some? then GetUserByEmail(users, v.email) else Some(v)
    ensures forall e :: e != v.email ==> GetUserByEmail(users + [v], e) == GetUserByEmail(users, e)
  {
    FirstIndexAppend(users, v, (x: User) => x.email == v.email);
    forall e | e != v.email
      ensures GetUserByEmail(users + [v], e) == GetUserByEmail(users, e)
    {
      FirstIndexAppend(users, v, (x: User) => x.email == e);
    }
  }

  /** Replacing a row by one with the same email changes no lookup's position. */
  lemma SameEmailKeepsLookup(users: seq<User>, i: nat, v: User)
    requires i < |users| && v.email == users[i].email
    ensures forall e :: EmailIndex(users[i := v], e) == EmailIndex(users, e)
  {
    forall e ensures EmailIndex(users[i := v], e) == EmailIndex(users, e) {
      FirstIndexSamePattern(users[i := v], users, (x: User) => x.email == e);
    }
  }

  /** The `users` table, updated in place by the repository's writes. */
  class UserStore {
    var users: seq<User>
    /** The id the table's sequence hands to the next inserted row. */
    var nextId: int

    ghost predicate Valid()
      reads this
    {
      UniqueIds(users) && forall x :: x in users ==> x.id < nextId
    }

    constructor ()
      ensures Valid() && users == []
    {
      users := [];
      nextId := 1;
    }

    /**
     * `create_user`: inserts one user with the body's fields and a fresh id.
     * The avatar is the Gravatar lookup's result, `None` when the lookup
     * failed (`lookup` stands for both outcomes). A new user has no refresh
     * token and is not confirmed. The users already stored are unchanged.
     */
    method CreateUser(body: UserInput, lookup: Option<string>) returns (v: User)
      requires Valid()
      modifies this
      ensures Valid()
      ensures v.username == body.username && v.email == body.email && v.password == body.password
      ensures v.avatar == lookup && v.refreshToken == None && !v.confirmed
      ensures forall x :: x in old(users) ==> x.id != v.id
      ensures users == old(users) + [v]
    {
      v := User(nextId, body.username, body.email, body.password, lookup, None, false);
      users := users + [v];
      nextId := nextId + 1;
    }

    /**
     * `update_token`: sets the refresh token (possibly to `None`) of the given
     * stored user, identified by its id, and changes nothing else.
     */
    method UpdateToken(id: int, token: Option<string>)
      requires Valid()
      requires exists i :: 0 <= i < |users| && users[i].id == id
      modifies this
      ensures Valid() && nextId == old(nextId)
      ensures |users| == |old(users)|
      ensures forall i :: 0 <= i < |users| ==>
                users[i] == if old(users)[i].id == id then old(users)[i].(refreshToken := token) else old(users)[i]
    {
      var i := FirstIndex(users, (x: User) => x.id == id).value;
      users := users[i := users[i].(refreshToken := token)];
    }

    /**
     * `mark_email_confirmed`: the user found by that email (who must exist)
     * becomes confirmed; nothing else changes.
     */
    method MarkEmailConfirmed(email: string)
      requires Valid()
      requires GetUserByEmail(users, email).Some?
      modifies this
      ensures Valid() && nextId == old(nextId)
      ensures exists i :: (0 <= i < |old(users)| && old(users)[i] == old(GetUserByEmail(users, email)).value
                           && users == old(users)[i := old(users)[i].(confirmed := true)])
      ensures GetUserByEmail(users, email) == Some(old(GetUserByEmail(users, email)).value.(confirmed := true))
    {
      var i := EmailIndex(users, email).value;
      var v := users[i].(confirmed := true);
      SameEmailKeepsLookup(users, i, v);
      users := users[i := v];
    }

    /**
     * `update_avatar`: sets the avatar of the user found by that email (who
     * must exist) to `url` and returns that user; nothing else changes.
     */
    method UpdateAvatar(email: string, url: string) returns (v: User)
      requires Valid()
      requires GetUserByEmail(users, email).Some?
      modifies this
      ensures Valid() && nextId == old(nextId)
      ensures v == old(GetUserByEmail(users, email)).value.(avatar := Some(url))
      ensures exists i :: (0 <= i < |old(users)| && old(users)[i].email == email
                           && users == old(users)[i := v])
      ensures GetUserByEmail(users, email) == Some(v)
    {
      var i := EmailIndex(users, email).value;
      v := users[i].(avatar := Some(url));
      SameEmailKeepsLookup(users, i, v);
      users := users[i := v];
    }
  }
}
