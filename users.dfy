/**
 * The admin-only user endpoints: add, list, delete and update users. Each
 * checks, in order, that admin credentials are given (401), that they
 * belong to an admin (403), and then its own conditions (400 / 404).
 */
module Users {
  import opened Wrappers
  import opened Text
  import opened Database

  const FieldsRequired := "Name, email, and password are required"
  const EmailTaken := "Email already registered"
  const UserAdded := "User added successfully"
  const UserNotFound := "User not found"
  const UserDeleted := "User deleted"
  const FieldRequired := "At least one field required"
  const UserUpdated := "User updated"

  predicate EmailRegistered(users: seq<User>, email: string) {
    exists i | 0 <= i < |users| :: users[i].email == email
  }

  predicate UserExists(users: seq<User>, userId: int) {
    exists i | 0 <= i < |users| :: users[i].userId == userId
  }

  // ---------------------------------------------------------------- add_user

  datatype NewUser = NewUser(admin: Credentials, name: Option<string>, email: Option<string>,
                             password: Option<string>, isAdmin: Option<int>)

  predicate NewUserComplete(req: NewUser) {
    TruthyText(req.name) && TruthyText(req.email) && TruthyText(req.password)
  }

  /** add_user's answer, in the order it checks. */
  function AddUserReply(users: seq<User>, req: NewUser): (r: Reply)
    ensures (r == Fail(401, CredentialsRequired)) == !CredentialsGiven(req.admin)
    ensures (r == Fail(403, NotAuthorized)) == (CredentialsGiven(req.admin) && !IsAdminCaller(users, req.admin))
    ensures (r == Fail(400, FieldsRequired)) ==
              (CredentialsGiven(req.admin) && IsAdminCaller(users, req.admin) && !NewUserComplete(req))
    ensures (r == Fail(400, EmailTaken)) ==
              (CredentialsGiven(req.admin) && IsAdminCaller(users, req.admin) && NewUserComplete(req)
               && EmailRegistered(users, req.email.value))
    ensures r.Ok? ==> r == Ok(UserAdded) && NewUserComplete(req) && !EmailRegistered(users, req.email.value)
    ensures r.Ok? || r.Fail?
  {
    match AdminGate(users, req.admin)
    case Some(refusal) => refusal
    case None =>
      if !NewUserComplete(req) then Fail(400, FieldsRequired)
      else if EmailRegistered(users, req.email.value) then Fail(400, EmailTaken)
      else Ok(UserAdded)
  }

  /** The row add_user inserts; is_admin defaults to 0. */
  function NewUserRow(userId: int, req: NewUser): (u: User)
    requires NewUserComplete(req)
    ensures u.userId == userId && u.name == req.name.value && u.email == req.email.value
    ensures u.password == req.password.value
    ensures u.isAdmin == req.isAdmin.GetOr(0)
  {
    User(userId, req.name.value, req.email.value, req.password.value, req.isAdmin.GetOr(0))
  }

  /** A freshly added user can pass the admin gate exactly when it was made an admin. */
  lemma AddedUserAuthenticates(users: seq<User>, userId: int, req: NewUser)
    requires NewUserComplete(req) && !EmailRegistered(users, req.email.value)
    ensures var c := Credentials(req.email, req.password);
            CredentialsGiven(c) && (IsAdminCaller(users + [NewUserRow(userId, req)], c) <==> req.isAdmin.GetOr(0) == 1)
  {
    var row := NewUserRow(userId, req);
    NotRegisteredNoLookup(users, row.email, row.password);
    LookupAppend(users, row);
  }

  lemma {:induction false} NotRegisteredNoLookup(users: seq<User>, email: string, password: string)
    requires !EmailRegistered(users, email)
    ensures LookupIsAdmin(users, email, password) == None
  {
    if users != [] {
      assert !EmailRegistered(users[1..], email) by {
        forall i | 0 <= i < |users[1..]| ensures users[1..][i].email != email {
          assert users[1..][i] == users[i + 1];
        }
      }
      NotRegisteredNoLookup(users[1..], email, password);
    }
  }

  lemma {:induction false} LookupAppend(users: seq<User>, row: User)
    requires LookupIsAdmin(users, row.email, row.password) == None
    ensures LookupIsAdmin(users + [row], row.email, row.password) == Some(row.isAdmin)
  {
    if users != [] {
      assert (users + [row])[1..] == users[1..] + [row];
      LookupAppend(users[1..], row);
    }
  }

  /** POST /users. */
  method AddUser(db: Db, req: NewUser) returns (reply: Reply)
    requires db.Valid()
    modifies db
    ensures db.Valid() && reply == AddUserReply(old(db.users), req)
    ensures reply.Ok? ==> db.users == old(db.users) + [NewUserRow(old(db.nextUserId), req)]
    ensures !reply.Ok? ==> db.users == old(db.users)
    ensures db.movies == old(db.movies) && db.genres == old(db.genres) && db.watchlist == old(db.watchlist)
    ensures db.bookingItems == old(db.bookingItems) && db.reviews == old(db.reviews)
    ensures db.seatTriggers == old(db.seatTriggers)
  {
    var gate := AdminGate(db.users, req.admin);
    if gate.Some? {
      return gate.value;
    }
    if !(TruthyText(req.name) && TruthyText(req.email) && TruthyText(req.password)) {
      return Fail(400, FieldsRequired);
    }
    if EmailRegistered(db.users, req.email.value) {
      return Fail(400, EmailTaken);
    }
    var row := NewUserRow(db.nextUserId, req);
    db.users := db.users + [row];
    db.nextUserId := db.nextUserId + 1;
    reply := Ok(UserAdded);
  }

  // --------------------------------------------------------------- get_users

  /** One listed user: `SELECT user_id, name, email, is_admin` (no password column). */
  datatype UserView = UserView(userId: int, name: string, email: string, isAdmin: int)

  datatype UserListing = Listed(users: seq<UserView>) | Refused(reply: Reply)

  function ViewOf(u: User): UserView {
    UserView(u.userId, u.name, u.email, u.isAdmin)
  }

  function Views(users: seq<User>): (r: seq<UserView>)
    ensures |r| == |users| && forall i :: 0 <= i < |users| ==> r[i] == ViewOf(users[i])
  {
    if users == [] then [] else [ViewOf(users[0])] + Views(users[1..])
  }

  /** GET /users: every user, in table order, without the password. */
  function GetUsers(users: seq<User>, admin: Credentials): (r: UserListing)
    ensures r.Refused? <==> AdminGate(users, admin).Some?
    ensures r.Refused? ==> r.reply == AdminGate(users, admin).value
    ensures r.Listed? ==> |r.users| == |users|
    ensures r.Listed? ==> forall i :: 0 <= i < |users| ==>
              r.users[i].userId == users[i].userId && r.users[i].name == users[i].name
              && r.users[i].email == users[i].email && r.users[i].isAdmin == users[i].isAdmin
  {
    match AdminGate(users, admin)
    case Some(refusal) => Refused(refusal)
    case None => Listed(Views(users))
  }

  // ------------------------------------------------------------- delete_user

  /** `DELETE FROM users WHERE user_id=%s`. */
  function RemoveUser(users: seq<User>, userId: int): (r: seq<User>)
    ensures |r| <= |users|
  {
    if users == [] then []
    else if users[0].userId == userId then RemoveUser(users[1..], userId)
    else [users[0]] + RemoveUser(users[1..], userId)
  }

  /** The remaining rows are exactly the rows with another id. */
  lemma {:induction false} RemoveUserMembers(users: seq<User>, userId: int)
    ensures forall u :: u in RemoveUser(users, userId) <==> u in users && u.userId != userId
  {
    if users != [] {
      RemoveUserMembers(users[1..], userId);
      assert forall u :: u in users <==> u == users[0] || u in users[1..];
    }
  }

  /** Deleting the user at position k takes out that row only; the others keep their order. */
  lemma {:induction false} RemoveUserAt(users: seq<User>, k: nat)
    requires UniqueUserIds(users) && k < |users|
    ensures RemoveUser(users, users[k].userId) == users[..k] + users[k + 1..]
  {
    var id := users[k].userId;
    if k == 0 {
      RemoveAbsentUser(users[1..], id);
    } else {
      assert UniqueUserIds(users[1..]) by {
        forall a, b | 0 <= a < b < |users[1..]| ensures users[1..][a].userId != users[1..][b].userId {
          assert users[1..][a] == users[a + 1] && users[1..][b] == users[b + 1];
        }
      }
      assert users[1..][k - 1] == users[k];
      RemoveUserAt(users[1..], k - 1);
      assert users[0].userId != id;
      assert [users[0]] + (users[1..][..k - 1] + users[1..][k..]) == users[..k] + users[k + 1..];
    }
  }

  lemma {:induction false} RemoveAbsentUser(users: seq<User>, userId: int)
    requires forall i :: 0 <= i < |users| ==> users[i].userId != userId
    ensures RemoveUser(users, userId) == users
  {
    if users != [] {
      RemoveAbsentUser(users[1..], userId);
      assert [users[0]] + users[1..] == users;
    }
  }

  function DeleteUserReply(users: seq<User>, admin: Credentials, userId: int): (r: Reply)
    ensures r == Fail(401, CredentialsRequired) <==> !CredentialsGiven(admin)
    ensures r == Fail(403, NotAuthorized) <==> CredentialsGiven(admin) && !IsAdminCaller(users, admin)
    ensures r == Fail(404, UserNotFound) <==> AdminGate(users, admin).None? && !UserExists(users, userId)
    ensures r == Ok(UserDeleted) <==> AdminGate(users, admin).None? && UserExists(users, userId)
  {
    match AdminGate(users, admin)
    case Some(refusal) => refusal
    case None => if UserExists(users, userId) then Ok(UserDeleted) else Fail(404, UserNotFound)
  }

  /** DELETE /users/<id>: 404 when no row was deleted (rowcount 0). */
  method DeleteUser(db: Db, admin: Credentials, userId: int) returns (reply: Reply)
    requires db.Valid()
    modifies db
    ensures db.Valid() && reply == DeleteUserReply(old(db.users), admin, userId)
    ensures reply.Ok? ==> db.users == RemoveUser(old(db.users), userId)
    ensures !reply.Ok? ==> db.users == old(db.users)
    ensures db.movies == old(db.movies) && db.genres == old(db.genres) && db.watchlist == old(db.watchlist)
    ensures db.bookingItems == old(db.bookingItems) && db.reviews == old(db.reviews)
    ensures db.seatTriggers == old(db.seatTriggers)
  {
    var gate := AdminGate(db.users, admin);
    if gate.Some? {
      return gate.value;
    }
    var remaining := RemoveUser(db.users, userId);
    RemoveNothingMeansAbsent(db.users, userId);
    if |remaining| == |db.users| {
      return Fail(404, UserNotFound);
    }
    RemoveKeepsUserInvariants(db.users, userId);
    RemoveUserMembers(db.users, userId);
    assert forall i :: 0 <= i < |remaining| ==> remaining[i] in db.users;
    db.users := remaining;
    reply := Ok(UserDeleted);
  }

  /** rowcount 0 happens exactly when no user has the id. */
  lemma {:induction false} RemoveNothingMeansAbsent(users: seq<User>, userId: int)
    ensures |RemoveUser(users, userId)| == |users| <==> !UserExists(users, userId)
  {
    if users != [] {
      RemoveNothingMeansAbsent(users[1..], userId);
      assert forall i :: 1 <= i < |users| ==> users[i] == users[1..][i - 1];
      if UserExists(users[1..], userId) {
        var i :| 0 <= i < |users[1..]| && users[1..][i].userId == userId;
        assert users[i + 1].userId == userId;
      }
    }
  }

  lemma {:induction false} RemoveKeepsUserInvariants(users: seq<User>, userId: int)
    requires UniqueUserIds(users) && UniqueEmails(users)
    ensures UniqueUserIds(RemoveUser(users, userId)) && UniqueEmails(RemoveUser(users, userId))
  {
    if users != [] {
      var tail := users[1..];
      assert UniqueUserIds(tail) && UniqueEmails(tail) by {
        forall a, b | 0 <= a < b < |tail|
          ensures tail[a].userId != tail[b].userId && tail[a].email != tail[b].email
        {
          assert tail[a] == users[a + 1] && tail[b] == users[b + 1];
        }
      }
      RemoveKeepsUserInvariants(tail, userId);
      if users[0].userId != userId {
        var rest := RemoveUser(tail, userId);
        RemoveUserMembers(tail, userId);
        forall j | 0 <= j < |rest|
          ensures users[0].userId != rest[j].userId && users[0].email != rest[j].email
        {
          assert rest[j] in tail;
          var k :| 0 <= k < |tail| && tail[k] == rest[j];
          assert tail[k] == users[k + 1];
        }
        var r := [users[0]] + rest;
        forall a, b | 0 <= a < b < |r| ensures r[a].userId != r[b].userId && r[a].email != r[b].email {
          if a > 0 {
            assert r[a] == rest[a - 1] && r[b] == rest[b - 1];
          } else {
            assert r[b] == rest[b - 1];
          }
        }
      }
    }
  }

  // ------------------------------------------------------------- update_user

  datatype UserUpdate = UserUpdate(admin: Credentials, name: Option<string>, email: Option<string>,
                                   password: Option<string>, isAdmin: Option<int>)

  /** `any([name, email, password, is_admin is not None])`. */
  predicate AnyFieldGiven(u: UserUpdate) {
    TruthyText(u.name) || TruthyText(u.email) || TruthyText(u.password) || u.isAdmin.Some?
  }

  /** A query parameter. */
  datatype SqlValue = Text(text: string) | Int(number: int)

  /** The assignable columns, in the order the handler tests them. */
  const ColumnOrder: seq<string> := ["name=%s", "email=%s", "password=%s", "is_admin=%s"]

  function Rank(column: string): nat {
    if column == "name=%s" then 0
    else if column == "email=%s" then 1
    else if column == "password=%s" then 2
    else if column == "is_admin=%s" then 3
    else 4
  }

  /** Whether the update supplies a value for a column. */
  predicate Supplies(u: UserUpdate, column: string) {
    if column == "name=%s" then TruthyText(u.name)
    else if column == "email=%s" then TruthyText(u.email)
    else if column == "password=%s" then TruthyText(u.password)
    else if column == "is_admin=%s" then u.isAdmin.Some?
    else false
  }

  /** The value the update supplies for a column. */
  function SuppliedValue(u: UserUpdate, column: string): SqlValue {
    if column == "name=%s" then Text(u.name.GetOr(""))
    else if column == "email=%s" then Text(u.email.GetOr(""))
    else if column == "password=%s" then Text(u.password.GetOr(""))
    else Int(u.isAdmin.GetOr(0))
  }

  /** The SET list update_user builds: the supplied columns, tested in the fixed order. */
  function SetList(u: UserUpdate): seq<string> {
    var a := if TruthyText(u.name) then ["name=%s"] else [];
    var b := if TruthyText(u.email) then a + ["email=%s"] else a;
    var c := if TruthyText(u.password) then b + ["password=%s"] else b;
    if u.isAdmin.Some? then c + ["is_admin=%s"] else c
  }

  /** The parameters that go with SetList, before user_id. */
  function SetValues(u: UserUpdate): seq<SqlValue> {
    var a := if TruthyText(u.name) then [Text(u.name.value)] else [];
    var b := if TruthyText(u.email) then a + [Text(u.email.value)] else a;
    var c := if TruthyText(u.password) then b + [Text(u.password.value)] else b;
    if u.isAdmin.Some? then c + [Int(u.isAdmin.value)] else c
  }

  /** The SET list names exactly the supplied columns, and only assignable ones. */
  lemma SetListMembers(u: UserUpdate)
    ensures forall c :: c in ColumnOrder ==> (c in SetList(u) <==> Supplies(u, c))
    ensures forall i :: 0 <= i < |SetList(u)| ==> SetList(u)[i] in ColumnOrder
  {
  }

  /** The SET list keeps the order name, email, password, is_admin. */
  lemma SetListOrdered(u: UserUpdate)
    ensures forall i, j :: 0 <= i < j < |SetList(u)| ==> Rank(SetList(u)[i]) < Rank(SetList(u)[j])
  {
  }

  /** Each column of the SET list gets the value the update supplies for it. */
  lemma SetValuesMatch(u: UserUpdate)
    ensures |SetValues(u)| == |SetList(u)|
    ensures forall i :: 0 <= i < |SetList(u)| ==> SetValues(u)[i] == SuppliedValue(u, SetList(u)[i])
  {
  }

  /** The SET list is empty exactly when no field is given (the 400 case). */
  lemma SetListEmpty(u: UserUpdate)
    ensures AnyFieldGiven(u) <==> SetList(u) != []
  {
  }

  /**
   * The `updates` / `values` lists update_user builds: exactly the supplied
   * columns in the fixed order, each with its value, and user_id last.
   */
  method BuildSetClause(u: UserUpdate, userId: int) returns (updates: seq<string>, values: seq<SqlValue>)
    ensures updates == SetList(u) && values == SetValues(u) + [Int(userId)]
  {
    updates, values := [], [];
    if TruthyText(u.name) {
      updates := updates + ["name=%s"];
      values := values + [Text(u.name.value)];
    }
    if TruthyText(u.email) {
      updates := updates + ["email=%s"];
      values := values + [Text(u.email.value)];
    }
    if TruthyText(u.password) {
      updates := updates + ["password=%s"];
      values := values + [Text(u.password.value)];
    }
    if u.isAdmin.Some? {
      updates := updates + ["is_admin=%s"];
      values := values + [Int(u.isAdmin.value)];
    }
    values := values + [Int(userId)];
  }

  /** `UPDATE users SET <updates joined by ", "> WHERE user_id=%s`. */
  function UpdateQuery(updates: seq<string>): (q: string)
    ensures StartsWith(q, "UPDATE users SET ") && EndsWith(q, " WHERE user_id=%s")
  {
    "UPDATE users SET " + Join(updates, ", ") + " WHERE user_id=%s"
  }

  /** The database applying one `column=%s` with its value. */
  function SetColumn(user: User, column: string, v: SqlValue): User {
    if column == "name=%s" && v.Text? then user.(name := v.text)
    else if column == "email=%s" && v.Text? then user.(email := v.text)
    else if column == "password=%s" && v.Text? then user.(password := v.text)
    else if column == "is_admin=%s" && v.Int? then user.(isAdmin := v.number)
    else user
  }

  /** The database applying the whole SET list, left to right. */
  function Assign(user: User, updates: seq<string>, values: seq<SqlValue>): User
    requires |values| >= |updates|
    decreases |updates|
  {
    if updates == [] then user
    else Assign(SetColumn(user, updates[0], values[0]), updates[1..], values[1..])
  }

  /** The row update_user means to write: supplied fields replaced, the rest kept. */
  function Updated(user: User, u: UserUpdate): (r: User)
    ensures r.userId == user.userId
    ensures r.name == (if TruthyText(u.name) then u.name.value else user.name)
    ensures r.email == (if TruthyText(u.email) then u.email.value else user.email)
    ensures r.password == (if TruthyText(u.password) then u.password.value else user.password)
    ensures r.isAdmin == (if u.isAdmin.Some? then u.isAdmin.value else user.isAdmin)
  {
    User(user.userId,
         if TruthyText(u.name) then u.name.value else user.name,
         if TruthyText(u.email) then u.email.value else user.email,
         if TruthyText(u.password) then u.password.value else user.password,
         if u.isAdmin.Some? then u.isAdmin.value else user.isAdmin)
  }

  /** The columns the SET list names replaced by the supplied values, the rest kept. */
  function Overwrite(user: User, u: UserUpdate, updates: seq<string>): User {
    User(user.userId,
         if "name=%s" in updates then u.name.GetOr("") else user.name,
         if "email=%s" in updates then u.email.GetOr("") else user.email,
         if "password=%s" in updates then u.password.GetOr("") else user.password,
         if "is_admin=%s" in updates then u.isAdmin.GetOr(0) else user.isAdmin)
  }

  /** Applying a list of distinct columns with their supplied values overwrites exactly those columns. */
  lemma {:induction false} AssignOverwrites(user: User, u: UserUpdate, updates: seq<string>, values: seq<SqlValue>)
    requires |values| >= |updates|
    requires forall i :: 0 <= i < |updates| ==> updates[i] in ColumnOrder
    requires forall i, j :: 0 <= i < j < |updates| ==> updates[i] != updates[j]
    requires forall i :: 0 <= i < |updates| ==> values[i] == SuppliedValue(u, updates[i])
    ensures Assign(user, updates, values) == Overwrite(user, u, updates)
    decreases |updates|
  {
    if updates != [] {
      var rest := updates[1..];
      assert forall i :: 0 <= i < |rest| ==> rest[i] == updates[i + 1];
      assert updates[0] !in rest;
      AssignOverwrites(SetColumn(user, updates[0], values[0]), u, rest, values[1..]);
      assert forall c :: c in updates <==> c == updates[0] || c in rest;
    }
  }

  /**
   * Executing a SET list built by BuildSetClause writes exactly the
   * supplied fields: the query means what update_user intends.
   */
  lemma AssignBuiltClause(user: User, u: UserUpdate, updates: seq<string>, values: seq<SqlValue>)
    requires |values| >= |updates|
    requires forall c :: c in ColumnOrder ==> (c in updates <==> Supplies(u, c))
    requires forall i :: 0 <= i < |updates| ==> updates[i] in ColumnOrder
    requires forall i, j :: 0 <= i < j < |updates| ==> Rank(updates[i]) < Rank(updates[j])
    requires forall i :: 0 <= i < |updates| ==> values[i] == SuppliedValue(u, updates[i])
    ensures Assign(user, updates, values) == Updated(user, u)
  {
    AssignOverwrites(user, u, updates, values);
  }

  /** The supplied email already belongs to another user: the UNIQUE(email) constraint refuses the UPDATE. */
  predicate EmailClash(users: seq<User>, u: UserUpdate, userId: int) {
    TruthyText(u.email) && exists i | 0 <= i < |users| :: users[i].userId != userId && users[i].email == u.email.value
  }

  /** update_user's answer: 401, then 400 (before any lookup), then 403, then 404. */
  function UpdateUserReply(users: seq<User>, u: UserUpdate, userId: int): (r: Reply)
    ensures r == Fail(401, CredentialsRequired) <==> !CredentialsGiven(u.admin)
    ensures r == Fail(400, FieldRequired) <==> CredentialsGiven(u.admin) && !AnyFieldGiven(u)
    ensures r == Fail(403, NotAuthorized) <==>
              CredentialsGiven(u.admin) && AnyFieldGiven(u) && !IsAdminCaller(users, u.admin)
    ensures r == Fail(404, UserNotFound) <==>
              AnyFieldGiven(u) && AdminGate(users, u.admin).None? && !UserExists(users, userId)
    ensures r == DbError <==>
              AnyFieldGiven(u) && AdminGate(users, u.admin).None? && UserExists(users, userId)
              && EmailClash(users, u, userId)
    ensures r == Ok(UserUpdated) <==>
              AnyFieldGiven(u) && AdminGate(users, u.admin).None? && UserExists(users, userId)
              && !EmailClash(users, u, userId)
  {
    if !CredentialsGiven(u.admin) then Fail(401, CredentialsRequired)
    else if !AnyFieldGiven(u) then Fail(400, FieldRequired)
    else if !IsAdminCaller(users, u.admin) then Fail(403, NotAuthorized)
    else if !UserExists(users, userId) then Fail(404, UserNotFound)
    else if EmailClash(users, u, userId) then DbError
    else Ok(UserUpdated)
  }

  /** The table update_user means to leave: the row with the id updated, every other row as it was. */
  function ApplyUpdate(users: seq<User>, userId: int, u: UserUpdate): (r: seq<User>)
    ensures |r| == |users|
    ensures forall i :: 0 <= i < |users| ==> r[i].userId == users[i].userId
    ensures forall i :: 0 <= i < |users| && users[i].userId != userId ==> r[i] == users[i]
  {
    seq(|users|, i requires 0 <= i < |users| => if users[i].userId == userId then Updated(users[i], u) else users[i])
  }

  /** The database executing `UPDATE users SET ... WHERE user_id=%s` with these parameters. */
  function ExecuteUpdate(users: seq<User>, updates: seq<string>, values: seq<SqlValue>): (r: seq<User>)
    requires |values| == |updates| + 1 && values[|updates|].Int?
    ensures |r| == |users|
    ensures forall i :: 0 <= i < |users| && users[i].userId != values[|updates|].number ==> r[i] == users[i]
  {
    var key := values[|updates|].number;
    seq(|users|, i requires 0 <= i < |users| =>
      if users[i].userId == key then Assign(users[i], updates, values[..|updates|]) else users[i])
  }

  /** Executing the statement BuildSetClause produces updates the table as ApplyUpdate says. */
  lemma ExecuteBuiltUpdate(users: seq<User>, u: UserUpdate, userId: int)
    ensures ExecuteUpdate(users, SetList(u), SetValues(u) + [Int(userId)]) == ApplyUpdate(users, userId, u)
  {
    var updates, values := SetList(u), SetValues(u) + [Int(userId)];
    SetListMembers(u);
    SetListOrdered(u);
    SetValuesMatch(u);
    assert values[..|updates|] == SetValues(u);
    var next, want := ExecuteUpdate(users, updates, values), ApplyUpdate(users, userId, u);
    forall i | 0 <= i < |users| ensures next[i] == want[i] {
      AssignBuiltClause(users[i], u, updates, SetValues(u));
    }
  }

  /** Without a clash, the update keeps ids and emails unique. */
  lemma UpdateKeepsUserInvariants(users: seq<User>, userId: int, u: UserUpdate)
    requires UniqueUserIds(users) && UniqueEmails(users) && !EmailClash(users, u, userId)
    ensures UniqueUserIds(ApplyUpdate(users, userId, u)) && UniqueEmails(ApplyUpdate(users, userId, u))
    ensures forall i :: 0 <= i < |users| ==> ApplyUpdate(users, userId, u)[i].userId == users[i].userId
  {
    var r := ApplyUpdate(users, userId, u);
    forall a, b | 0 <= a < b < |r| ensures r[a].email != r[b].email {
      if users[a].userId == userId {
        assert users[b].userId != userId;
      } else if users[b].userId == userId {
        assert users[a].userId != userId;
      }
    }
  }

  /** PUT /users/<id>. */
  method UpdateUser(db: Db, u: UserUpdate, userId: int) returns (reply: Reply)
    requires db.Valid()
    modifies db
    ensures db.Valid() && reply == UpdateUserReply(old(db.users), u, userId)
    ensures reply.Ok? ==> db.users == ApplyUpdate(old(db.users), userId, u)
    ensures !reply.Ok? ==> db.users == old(db.users)
    ensures db.movies == old(db.movies) && db.genres == old(db.genres) && db.watchlist == old(db.watchlist)
    ensures db.bookingItems == old(db.bookingItems) && db.reviews == old(db.reviews)
    ensures db.seatTriggers == old(db.seatTriggers) && db.nextUserId == old(db.nextUserId)
  {
    if !CredentialsGiven(u.admin) {
      return Fail(401, CredentialsRequired);
    }
    if !(TruthyText(u.name) || TruthyText(u.email) || TruthyText(u.password) || u.isAdmin.Some?) {
      return Fail(400, FieldRequired);
    }
    if !IsAdminCaller(db.users, u.admin) {
      return Fail(403, NotAuthorized);
    }
    if !UserExists(db.users, userId) {
      return Fail(404, UserNotFound);
    }
    var updates, values := BuildSetClause(u, userId);
    if EmailClash(db.users, u, userId) {
      return DbError;
    }
    var next := ExecuteUpdate(db.users, updates, values);
    ExecuteBuiltUpdate(db.users, u, userId);
    UpdateKeepsUserInvariants(db.users, userId, u);
    db.users := next;
    reply := Ok(UserUpdated);
  }
}
