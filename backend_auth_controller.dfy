/**
 * The self-registration of backend/controllers/auth.controller.js, the variant
 * that differs from controllers/auth.controller.js: the role defaults to
 * "Staff" only when it is missing, the duplicate check runs before the
 * presence check, a non-Admin needs a department, and the department is
 * stored as given.  Its registerUser, loginUser and getCurrentUser are those of
 * AuthController.
 */
module BackendAuthController {
  import opened Wrappers
  import opened MemoModel
  import opened Store
  import AuthController

  const MissingCredentials := Failure(BadRequest, "Please provide name, email, and password")
  const DepartmentRequired := Failure(BadRequest, "Department is required for non-admin users")
  const DefaultPublicRole := StaffRole

  /** The email is given and some stored user already has it. */
  predicate Duplicate(users: map<UserId, User>, email: Option<string>) {
    email.Some? && EmailTaken(users, email.value)
  }

  /** registerPublicUser: the user to store, or the first failing check. */
  function PublicRegistration(users: map<UserId, User>, b: UserBody): (r: Result<User>)
    ensures Duplicate(users, b.email) ==> r == Err(AuthController.UserExists)
    ensures !Duplicate(users, b.email) && !(Truthy(b.name) && Truthy(b.email) && Truthy(b.password)) ==> r == Err(MissingCredentials)
    ensures r == Err(DepartmentRequired) <==>
              && !Duplicate(users, b.email) && Truthy(b.name) && Truthy(b.email) && Truthy(b.password)
              && b.role.GetOr(DefaultPublicRole) != AdminRole && !b.department.Truthy()
    ensures r.Ok? <==> && !Duplicate(users, b.email) && Truthy(b.name) && Truthy(b.email) && Truthy(b.password)
                       && (b.role.GetOr(DefaultPublicRole) == AdminRole || b.department.Truthy())
    ensures r.Ok? ==> && r.value.name == b.name.value && r.value.email == b.email.value && r.value.password == b.password.value
                      && r.value.role == b.role.GetOr(DefaultPublicRole)
                      && r.value.department == b.department
                      && (r.value.role != AdminRole ==> r.value.department.Truthy())
  {
    var role := b.role.GetOr(DefaultPublicRole);
    if Duplicate(users, b.email) then Err(AuthController.UserExists)
    else if !Truthy(b.name) || !Truthy(b.email) || !Truthy(b.password) then Err(MissingCredentials)
    else if role != AdminRole && !b.department.Truthy() then Err(DepartmentRequired)
    else Ok(User(b.name.value, b.email.value, b.password.value, role, b.department))
  }

  /** registerPublicUser: validate, then insert under the fresh ObjectId `id`. */
  method RegisterPublicUser(db: Database, b: UserBody, id: UserId) returns (r: Result<PublicUser>)
    requires id !in db.users
    modifies db
    ensures var expected := PublicRegistration(old(db.users), b);
            && (r.Ok? <==> expected.Ok?)
            && (r.Err? ==> r.failure == expected.failure && db.users == old(db.users))
            && (r.Ok? ==> r.value == Public(id, expected.value) && db.users == old(db.users)[id := expected.value])
    ensures r.Ok? ==> forall k :: k in db.users && db.users[k].email == b.email.value ==> k == id
    ensures UniqueEmails(old(db.users)) ==> UniqueEmails(db.users)
    ensures db.memos == old(db.memos) && db.fields == old(db.fields)
  {
    var role := if b.role.Some? then b.role.value else DefaultPublicRole;
    if b.email.Some? {
      var existing := FindByEmail(db.users, b.email.value);
      if existing.Some? {
        return Err(AuthController.UserExists);
      }
    }
    if !Truthy(b.name) || !Truthy(b.email) || !Truthy(b.password) {
      return Err(MissingCredentials);
    }
    if role != AdminRole && !b.department.Truthy() {
      return Err(DepartmentRequired);
    }
    var user := User(b.name.value, b.email.value, b.password.value, role, b.department);
    db.users := db.users[id := user];
    r := Ok(Public(id, user));
  }

  /** The two variants check in opposite orders: an incomplete request with a taken email gets different errors. */
  lemma CheckOrderDiffers(users: map<UserId, User>)
    requires EmailTaken(users, "a@x.org")
    ensures var b := UserBody(None, Some("a@x.org"), Some("secret1"), None, Named("Ops"));
            && AuthController.PublicRegistration(users, b) == Err(AuthController.MissingCredentials)
            && PublicRegistration(users, b) == Err(AuthController.UserExists)
  {
  }

  /** The variants default differently: a missing role becomes "Student" there and "Staff" here, and only there does a missing department become "General". */
  lemma DefaultsDiffer(users: map<UserId, User>)
    requires !EmailTaken(users, "a@x.org")
    ensures var b := UserBody(Some("Al"), Some("a@x.org"), Some("secret1"), None, Named("Ops"));
            && AuthController.PublicRegistration(users, b).Ok?
            && AuthController.PublicRegistration(users, b).value.role == StudentRole
            && PublicRegistration(users, b).Ok?
            && PublicRegistration(users, b).value.role == StaffRole
    ensures var b := UserBody(Some("Al"), Some("a@x.org"), Some("secret1"), Some(AdminRole), NoDept);
            && AuthController.PublicRegistration(users, b).value.department == Named(AuthController.DefaultDepartment)
            && PublicRegistration(users, b).Ok? && PublicRegistration(users, b).value.department == NoDept
  {
  }

  /** Only a missing role takes the default; an empty one is kept and then needs a department. */
  lemma EmptyRoleIsNotDefaulted(users: map<UserId, User>)
    requires !EmailTaken(users, "a@x.org")
    ensures var b := UserBody(Some("Al"), Some("a@x.org"), Some("secret1"), Some(""), Named("Ops"));
            PublicRegistration(users, b).Ok? && PublicRegistration(users, b).value.role == ""
  {
  }
}
