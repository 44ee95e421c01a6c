/**
 * Registration, login and the current-user lookup of controllers/auth.controller.js
 * over the users table.  registerUser, loginUser and getCurrentUser behave the
 * same in backend/controllers/auth.controller.js (only the token payload
 * differs), so they are modelled once, here.  Password hashing and tokens are
 * not modelled: a stored password is compared only through `matches`.
 */
module AuthController {
  import opened Wrappers
  import opened MemoModel
  import opened Store

  const UserExists := Failure(BadRequest, "User already exists")
  const MissingCredentials := Failure(BadRequest, "Please provide name, email and password")
  const InvalidLogin := Failure(Unauthorized, "Invalid email or password")
  const DefaultPublicRole := StudentRole
  const DefaultDepartment := "General"

  /** registerUser (admin only): the user to store, or the duplicate-email error. */
  function AdminRegistration(users: map<UserId, User>, name: string, email: string, password: string,
                             role: string, department: Dept): (r: Result<User>)
    ensures r.Err? <==> EmailTaken(users, email)
    ensures r.Err? ==> r.failure == UserExists
    ensures r.Ok? ==> r.value.name == name && r.value.email == email && r.value.password == password && r.value.role == role
    ensures r.Ok? ==> (role == AdminRole ==> r.value.department == NullDept) && (role != AdminRole ==> r.value.department == department)
  {
    if EmailTaken(users, email) then Err(UserExists)
    else Ok(User(name, email, password, role, if role == AdminRole then NullDept else department))
  }

  /** registerUser: check the email, then insert under the fresh ObjectId `id`. */
  method RegisterUser(db: Database, name: string, email: string, password: string, role: string,
                      department: Dept, id: UserId) returns (r: Result<PublicUser>)
    requires id !in db.users
    modifies db
    ensures var expected := AdminRegistration(old(db.users), name, email, password, role, department);
            && (r.Ok? <==> expected.Ok?)
            && (r.Err? ==> r.failure == expected.failure && db.users == old(db.users))
            && (r.Ok? ==> r.value == Public(id, expected.value) && db.users == old(db.users)[id := expected.value])
    ensures r.Ok? ==> forall k :: k in db.users && db.users[k].email == email ==> k == id
    ensures UniqueEmails(old(db.users)) ==> UniqueEmails(db.users)
    ensures db.memos == old(db.memos) && db.fields == old(db.fields)
  {
    var existing := FindByEmail(db.users, email);
    if existing.Some? {
      return Err(UserExists);
    }
    var user := User(name, email, password, role, if role == AdminRole then NullDept else department);
    db.users := db.users[id := user];
    r := Ok(Public(id, user));
  }

  /** registerPublicUser: presence of name, email and password first, then the duplicate check, then the defaults. */
  function PublicRegistration(users: map<UserId, User>, b: UserBody): (r: Result<User>)
    ensures !(Truthy(b.name) && Truthy(b.email) && Truthy(b.password)) ==> r == Err(MissingCredentials)
    ensures Truthy(b.name) && Truthy(b.email) && Truthy(b.password) && EmailTaken(users, b.email.value) ==> r == Err(UserExists)
    ensures r.Ok? <==> Truthy(b.name) && Truthy(b.email) && Truthy(b.password) && !EmailTaken(users, b.email.value)
    ensures r.Ok? ==> && r.value.name == b.name.value && r.value.email == b.email.value && r.value.password == b.password.value
                      && r.value.role == OrElse(b.role, DefaultPublicRole)
                      && (b.department.Truthy() ==> r.value.department == b.department)
                      && (!b.department.Truthy() ==> r.value.department == Named(DefaultDepartment))
  {
    if !Truthy(b.name) || !Truthy(b.email) || !Truthy(b.password) then Err(MissingCredentials)
    else if EmailTaken(users, b.email.value) then Err(UserExists)
    else Ok(User(b.name.value, b.email.value, b.password.value, OrElse(b.role, DefaultPublicRole),
                 b.department.Or(Named(DefaultDepartment))))
  }

  /** Self-registration passes the requested role through, "Admin" included, and always sets a department. */
  lemma SelfSignupMayChooseAdmin(users: map<UserId, User>)
    requires !EmailTaken(users, "a@x.org")
    ensures var r := PublicRegistration(users, UserBody(Some("Al"), Some("a@x.org"), Some("secret1"), Some(AdminRole), NoDept));
            r.Ok? && r.value.role == AdminRole && r.value.department == Named(DefaultDepartment)
  {
  }

  /** registerPublicUser: validate, then insert under the fresh ObjectId `id`. */
  method RegisterPublicUser(db: Database, b: UserBody, id: UserId) returns (r: Result<PublicUser>)
    requires id !in db.users
    modifies db
    ensures var expected := PublicRegistration(old(db.users), b);
            && (r.Ok? <==> expected.Ok?)
            && (r.Err? ==> r.failure == expected.failure && db.users == old(db.users))
            && (r.Ok? ==> r.value == Public(id, expected.value) && db.users == old(db.users)[id := expected.value])
    ensures r.Ok? ==> forall k :: k in db.users && db.users[k].email == b.email.value ==> k == id
    ensures UniqueEmails(old(db.users)) ==> UniqueEmails(db.users)
    ensures db.memos == old(db.memos) && db.fields == old(db.fields)
  {
    if !Truthy(b.name) || !Truthy(b.email) || !Truthy(b.password) {
      return Err(MissingCredentials);
    }
    var existing := FindByEmail(db.users, b.email.value);
    if existing.Some? {
      return Err(UserExists);
    }
    var user := User(b.name.value, b.email.value, b.password.value, OrElse(b.role, DefaultPublicRole),
                     b.department.Or(Named(DefaultDepartment)));
    db.users := db.users[id := user];
    r := Ok(Public(id, user));
  }

  /** A user with this email whose stored password the candidate matches. */
  predicate CanLogIn(users: map<UserId, User>, email: string, password: string, matches: (string, string) -> bool) {
    exists id :: id in users && users[id].email == email && matches(password, users[id].password)
  }

  /**
   * loginUser: the user found by email must match the password; both failures
   * give the same 401.  With duplicate emails the store picks which user is checked.
   */
  method LoginUser(db: Database, email: string, password: string, matches: (string, string) -> bool)
    returns (r: Result<PublicUser>)
    ensures r.Err? ==> r.failure == InvalidLogin
    ensures r.Ok? ==> && r.value.id in db.users
                      && r.value == Public(r.value.id, db.users[r.value.id])
                      && r.value.email == email
                      && matches(password, db.users[r.value.id].password)
    ensures !CanLogIn(db.users, email, password, matches) ==> r.Err?
    ensures UniqueEmails(db.users) ==> (r.Ok? <==> CanLogIn(db.users, email, password, matches))
  {
    var found := FindByEmail(db.users, email);
    if found.Some? && matches(password, db.users[found.value].password) {
      r := Ok(Public(found.value, db.users[found.value]));
    } else {
      r := Err(InvalidLogin);
    }
  }

  /** getCurrentUser: the caller's own record without the password, or 404 when it is gone. */
  function CurrentUser(users: map<UserId, User>, id: UserId): (r: Result<PublicUser>)
    ensures r.Err? <==> id !in users
    ensures r.Err? ==> r.failure == UserNotFound
    ensures r.Ok? ==> r.value.id == id && r.value.email == users[id].email && r.value.name == users[id].name
                      && r.value.role == users[id].role && r.value.department == users[id].department
  {
    if id !in users then Err(UserNotFound) else Ok(Public(id, users[id]))
  }
}
